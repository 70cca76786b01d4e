/**
 * `is_document_or_source_code`: a path is eligible for the corpus when its
 * extension, read as UTF-8, is one of a fixed, case-sensitive list of literals.
 */
module Classifier {
  import opened Wrappers
  import opened Paths

  // The dot-free literals of the allow-list, in four runs of source order.

  const TextAndWeb: seq<string> := ["md", "txt", "rs", "py", "js", "ts", "jsx", "tsx", "html", "css"]
  const Programs: seq<string> := ["c", "cpp", "java", "php", "go", "rb", "sh", "bat", "ps1", "psm1"]
  const DataFormats: seq<string> := ["json", "yaml", "yml", "toml", "xml", "csv", "tsv", "sql", "sqlite", "db"]
  const Configs: seq<string> := ["log", "ini", "cfg", "conf", "properties", "env", "envrc"]

  /** The literals an extension can actually equal: those without a dot. */
  const Reachable: seq<string> := TextAndWeb + Programs + DataFormats + Configs

  /** The environment-file variants that close the list; each contains a dot. */
  const Dotted: seq<string> := [
    "env.sample", "env.example", "env.local", "env.development", "env.test",
    "env.staging", "env.production", "env.ci", "env.dev", "env.prod", "env.stage",
    "env.stg"
  ]

  /** The 49 literals of the allow-list, in source order. */
  const AllowList: seq<string> := Reachable + Dotted

  predicate IsDocumentOrSourceCode(p: OsStr) {
    match ExtensionStr(p)
    case None => false
    case Some(e) => e in AllowList
  }

  lemma DottedEntriesContainDot()
    ensures |AllowList| == 49 && AllowList == Reachable + Dotted
    ensures forall s :: s in Dotted ==> '.' in s
  {
    forall s | s in Dotted ensures '.' in s {
      EnvVariantHasDot(s);
    }
  }

  /** Each environment-file variant has a dot after `env`. */
  lemma EnvVariantHasDot(s: string)
    requires s in Dotted
    ensures |s| > 3 && s[3] == '.'
  {
  }

  /**
   * No path is ever accepted through a dotted literal: an extension never holds
   * a dot, so the list that decides is the dot-free part.
   */
  lemma DottedEntriesUnreachable(p: OsStr)
    ensures ExtensionStr(p).Some? ==> ExtensionStr(p).value !in Dotted
    ensures IsDocumentOrSourceCode(p) <==>
              ExtensionStr(p).Some? && ExtensionStr(p).value in Reachable
  {
    DottedEntriesContainDot();
    ExtensionStrHasNoDot(p);
  }

  predicate LowerChar(c: char) {
    ('a' <= c <= 'z') || ('0' <= c <= '9')
  }

  /** Every literal an extension can equal is spelled with lower-case letters and digits only. */
  lemma ReachableIsLowerCase(s: string, k: nat)
    requires s in Reachable && k < |s|
    ensures LowerChar(s[k])
  {
    if s in TextAndWeb {
      TextAndWebLower(s, k);
    } else if s in Programs {
      ProgramsLower(s, k);
    } else if s in DataFormats {
      DataFormatsLower(s, k);
    } else {
      ConfigsLower(s, k);
    }
  }

  // Each run of dot-free literals, checked on its own.

  lemma TextAndWebLower(s: string, k: nat)
    requires s in TextAndWeb && k < |s|
    ensures LowerChar(s[k])
  {
  }

  lemma ProgramsLower(s: string, k: nat)
    requires s in Programs && k < |s|
    ensures LowerChar(s[k])
  {
  }

  lemma DataFormatsLower(s: string, k: nat)
    requires s in DataFormats && k < |s|
    ensures LowerChar(s[k])
  {
  }

  lemma ConfigsLower(s: string, k: nat)
    requires s in Configs && k < |s|
    ensures LowerChar(s[k])
  {
  }

  /**
   * Matching is case-sensitive: an extension holding any character other than
   * `a`-`z` and `0`-`9`, an upper-case letter of any script among them, is rejected.
   */
  lemma UpperCaseRejected(p: OsStr, k: nat)
    requires ExtensionStr(p).Some? && k < |ExtensionStr(p).value|
    requires !LowerChar(ExtensionStr(p).value[k])
    ensures !IsDocumentOrSourceCode(p)
  {
    DottedEntriesUnreachable(p);
    if IsDocumentOrSourceCode(p) {
      ReachableIsLowerCase(ExtensionStr(p).value, k);
    }
  }

  /** No extension, an empty one, or one that is not UTF-8: rejected. */
  lemma NoUsableExtensionRejected(p: OsStr)
    requires Extension(p).None? || Extension(p) == Some([]) || ToStr(Extension(p).value).None?
    ensures !IsDocumentOrSourceCode(p)
  {
    DottedEntriesUnreachable(p);
  }

  /** An accepted path's extension is present and valid UTF-8, so both `unwrap`s succeed. */
  lemma AcceptedExtensionUnwraps(p: OsStr)
    requires IsDocumentOrSourceCode(p)
    ensures Extension(p).Some? && ToStr(Extension(p).value).Some?
    ensures ToStr(Extension(p).value).value in Reachable
  {
    DottedEntriesUnreachable(p);
  }

  /** Once the extension is known, only the dot-free literals decide. */
  lemma ClassifiedByExtension(p: OsStr, e: string)
    requires ExtensionStr(p) == Some(e)
    ensures IsDocumentOrSourceCode(p) <==> e in Reachable
  {
    DottedEntriesUnreachable(p);
  }

  // Concrete classifications, for a file in any directory `dir`.

  /** A Rust source file, and a file whose extension is `env`, are accepted. */
  lemma ListedFilesAccepted(dir: string)
    ensures IsDocumentOrSourceCode(FromString(dir + "/" + "main.rs"))
    ensures IsDocumentOrSourceCode(FromString(dir + "/" + "app.env"))
  {
    ListedFileAccepted(dir, "main.rs", "main", "rs");
    ListedFileAccepted(dir, "app.env", "app", "env");
  }

  /** `dir/stem.ext` is accepted whenever `ext` is a dot-free literal of the list. */
  lemma ListedFileAccepted(dir: string, name: string, stem: string, ext: string)
    requires name == stem + "." + ext && ext in Reachable
    requires '/' !in stem && '/' !in ext && '.' !in ext && stem != []
    ensures IsDocumentOrSourceCode(FromString(dir + "/" + name))
  {
    ExtensionStrOfFile(Some(dir), name, stem, ext);
    ClassifiedByExtension(FromString(dir + "/" + name), ext);
  }

  /** `.env.production` is classified by `production`, which is not listed. */
  lemma DottedEnvFileRejected(dir: string)
    ensures !IsDocumentOrSourceCode(FromString(dir + "/" + ".env.production"))
  {
    DottedEnvFileExtension(dir);
    ProductionNotListed();
  }

  lemma ProductionNotListed()
    ensures "production" !in AllowList
  {
    assert "production" !in TextAndWeb && "production" !in Programs;
    assert "production" !in DataFormats && "production" !in Configs;
    assert "production" !in Dotted;
  }

  lemma DottedEnvFileExtension(dir: string)
    ensures ExtensionStr(FromString(dir + "/" + ".env.production")) == Some("production")
  {
    ExtensionStrOfFile(Some(dir), ".env.production", ".env", "production");
  }

  /** `.env` has no extension at all, so the `env` literal does not take it. */
  lemma HiddenEnvFileRejected(dir: string)
    ensures !IsDocumentOrSourceCode(FromString(dir + "/" + ".env"))
  {
    HiddenFileHasNoExtension(Some(dir), ".env", "env");
  }

  /** `MD` and `Rs` are not `md` and `rs`. */
  lemma WrongCaseRejected(dir: string)
    ensures !IsDocumentOrSourceCode(FromString(dir + "/" + "README.MD"))
    ensures !IsDocumentOrSourceCode(FromString(dir + "/" + "lib.Rs"))
  {
    ExtensionStrOfFile(Some(dir), "README.MD", "README", "MD");
    UpperCaseRejected(FromString(dir + "/" + "README.MD"), 0);
    ExtensionStrOfFile(Some(dir), "lib.Rs", "lib", "Rs");
    UpperCaseRejected(FromString(dir + "/" + "lib.Rs"), 0);
  }

  lemma TrailingDotRejected(dir: string)
    ensures !IsDocumentOrSourceCode(FromString(dir + "/" + "notes."))
  {
    ExtensionStrOfFile(Some(dir), "notes.", "notes", "");
    NoUsableExtensionRejected(FromString(dir + "/" + "notes."));
  }

  lemma NoDotRejected(dir: string)
    ensures !IsDocumentOrSourceCode(FromString(dir + "/" + "Makefile"))
  {
    NoDotFileHasNoExtension(Some(dir), "Makefile");
  }

  /** An extension holding a byte that is not UTF-8 is rejected, wherever the byte sits. */
  lemma RawByteExtensionRejected(p: OsStr, k: nat)
    requires Extension(p).Some? && k < |Extension(p).value| && Extension(p).value[k].Raw?
    ensures !IsDocumentOrSourceCode(p)
  {
    ToStrIsUtf8Check(Extension(p).value);
    NoUsableExtensionRejected(p);
  }

  /** `a.` followed by the byte 0xFF has a non-UTF-8 extension and is rejected. */
  lemma RawByteExampleRejected()
    ensures !IsDocumentOrSourceCode([Char('a'), Dot, Raw(0xFF)])
  {
    var raw := [Char('a'), Dot, Raw(0xFF)];
    FileNameOfName(raw);
    assert [Char('a')] + [Dot] + [Raw(0xFF)] == raw;
    ExtensionAfterLastDot([Char('a')], [Raw(0xFF)]);
    RawByteExtensionRejected(raw, 0);
  }
}
