/**
 * What `main` does with the scanned blocks before sending them: the block
 * count, the total size in bytes, the newline-terminated concatenation that
 * goes into the request, and the `y` confirmation.
 */
module Summary {
  import Paths
  import Classifier
  import Corpus

  /** Bytes the UTF-8 encoding of `c` takes. */
  function CharUtf8Len(c: char): (n: nat)
    ensures 1 <= n <= 4
    ensures n == 1 <==> c as int < 0x80
  {
    if c as int < 0x80 then 1
    else if c as int < 0x800 then 2
    else if c as int < 0x1_0000 then 3
    else 4
  }

  /** `str::len`: the length in bytes of the UTF-8 encoding of `s`. */
  function Utf8Len(s: string): nat {
    if s == [] then 0 else CharUtf8Len(s[0]) + Utf8Len(s[1..])
  }

  lemma {:induction false} Utf8LenAppend(a: string, b: string)
    ensures Utf8Len(a + b) == Utf8Len(a) + Utf8Len(b)
  {
    if a != [] {
      assert (a + b)[1..] == a[1..] + b;
      Utf8LenAppend(a[1..], b);
    } else {
      assert a + b == b;
    }
  }

  /** The byte length is at least the character count, and equal to it exactly for ASCII. */
  lemma {:induction false} Utf8LenBounds(s: string)
    ensures |s| <= Utf8Len(s) <= 4 * |s|
    ensures Utf8Len(s) == |s| <==> forall i :: 0 <= i < |s| ==> s[i] as int < 0x80
  {
    if s != [] {
      Utf8LenBounds(s[1..]);
      assert forall i :: 1 <= i < |s| ==> s[i] == s[1..][i - 1];
    }
  }

  lemma AsciiBytes(s: string)
    requires forall i :: 0 <= i < |s| ==> s[i] as int < 0x80
    ensures Utf8Len(s) == |s|
  {
    Utf8LenBounds(s);
  }

  /** The template's literal pieces are ASCII, one byte per character. */
  lemma TemplateBytes()
    ensures Utf8Len(Corpus.Indent) == 20
    ensures Utf8Len("\n\n") == 2 && Utf8Len("```") == 3 && Utf8Len("\n") == 1
    ensures Utf8Len("```\n") == 4 && Utf8Len("\n\n------------\n\n") == 16
  {
    IndentBytes();
    RuleBytes();
    BreakBytes();
    FenceBytes();
  }

  /** The template's line breaks and fences are ASCII. */
  lemma BreakBytes()
    ensures Utf8Len("\n") == 1 && Utf8Len("\n\n") == 2
  {
  }

  lemma FenceBytes()
    ensures Utf8Len("```") == 3 && Utf8Len("```\n") == 4
  {
  }

  lemma IndentBytes()
    ensures Utf8Len(Corpus.Indent) == 20
  {
    var half := "          ";
    assert Corpus.Indent == half + half;
    AsciiBytes(half);
    Utf8LenAppend(half, half);
  }

  lemma RuleBytes()
    ensures Utf8Len("\n\n------------\n\n") == 16
  {
    AsciiBytes("\n\n------------\n\n");
  }

  /** A block takes the bytes of its path, extension and content plus the template's ASCII. */
  lemma BlockByteSize(path: string, ext: string, content: string)
    ensures Utf8Len(Corpus.Block(path, ext, content)) ==
              Utf8Len(path) + Utf8Len(ext) + Utf8Len(content) + Corpus.TemplateSize
  {
    var ind := Corpus.Indent;
    TemplateBytes();
    var s := path;
    var n := Utf8Len(path);
    Utf8LenAppend(s, "\n\n"); s, n := s + "\n\n", n + 2;
    Utf8LenAppend(s, ind); s, n := s + ind, n + 20;
    Utf8LenAppend(s, "```"); s, n := s + "```", n + 3;
    Utf8LenAppend(s, ext); s, n := s + ext, n + Utf8Len(ext);
    Utf8LenAppend(s, "\n"); s, n := s + "\n", n + 1;
    Utf8LenAppend(s, ind); s, n := s + ind, n + 20;
    Utf8LenAppend(s, content); s, n := s + content, n + Utf8Len(content);
    Utf8LenAppend(s, "\n"); s, n := s + "\n", n + 1;
    Utf8LenAppend(s, ind); s, n := s + ind, n + 20;
    Utf8LenAppend(s, "```\n"); s, n := s + "```\n", n + 4;
    Utf8LenAppend(s, ind); s, n := s + ind, n + 20;
    Utf8LenAppend(s, "\n\n------------\n\n"); s, n := s + "\n\n------------\n\n", n + 16;
    assert s == Corpus.Block(path, ext, content);
  }

  /** `content_size`: the sum of the blocks' byte lengths. */
  function ContentSize(blocks: seq<string>): nat {
    if blocks == [] then 0 else Utf8Len(blocks[0]) + ContentSize(blocks[1..])
  }

  lemma {:induction false} ContentSizeAppend(a: seq<string>, b: seq<string>)
    ensures ContentSize(a + b) == ContentSize(a) + ContentSize(b)
  {
    if a != [] {
      assert (a + b)[1..] == a[1..] + b;
      ContentSizeAppend(a[1..], b);
    } else {
      assert a + b == b;
    }
  }

  /** Bytes of the path, extension and content behind each accepted path's block. */
  function PayloadBytes(accepted: seq<Paths.OsStr>, files: Corpus.Files): nat
    requires forall k :: 0 <= k < |accepted| ==>
               Classifier.IsDocumentOrSourceCode(accepted[k]) && Corpus.Readable(accepted[k], files)
  {
    if accepted == [] then 0
    else
      var p := accepted[0];
      assert Classifier.IsDocumentOrSourceCode(p) && Corpus.Readable(p, files);
      Utf8Len(Paths.ToStr(p).value) + Utf8Len(Paths.ExtensionStr(p).value) + Utf8Len(files[p]) +
        PayloadBytes(accepted[1..], files)
  }

  lemma {:induction false} BlocksSize(accepted: seq<Paths.OsStr>, blocks: seq<string>, files: Corpus.Files)
    requires Corpus.BlocksFor(accepted, blocks, files)
    ensures ContentSize(blocks) == PayloadBytes(accepted, files) + Corpus.TemplateSize * |blocks|
  {
    if accepted != [] {
      var p := accepted[0];
      BlockByteSize(Paths.ToStr(p).value, Paths.ExtensionStr(p).value, files[p]);
      assert Corpus.BlocksFor(accepted[1..], blocks[1..], files) by {
        forall k | 0 <= k < |accepted[1..]|
          ensures blocks[1..][k] == Corpus.FileBlock(accepted[1..][k], files)
        {
          assert accepted[1..][k] == accepted[k + 1];
        }
      }
      BlocksSize(accepted[1..], blocks[1..], files);
    }
  }

  /**
   * `content_size` of a completed scan: every accepted file contributes its
   * path, extension and content bytes plus the template's fixed bytes, and
   * `content_length` is the number of accepted files.
   */
  lemma ScanContentSize(walk: seq<Corpus.WalkEntry>, files: Corpus.Files)
    requires Corpus.ScanSpec(walk, files).Done?
    ensures forall k :: 0 <= k < |Corpus.Eligible(walk)| ==> Corpus.Readable(Corpus.Eligible(walk)[k], files)
    ensures |Corpus.ScanSpec(walk, files).blocks| == |Corpus.Eligible(walk)|
    ensures ContentSize(Corpus.ScanSpec(walk, files).blocks) ==
              PayloadBytes(Corpus.Eligible(walk), files) + Corpus.TemplateSize * |Corpus.Eligible(walk)|
  {
    Corpus.ScanDoneIffReadable(walk, files);
    Corpus.ScanBlocksMatchEligible(walk, files);
    BlocksSize(Corpus.Eligible(walk), Corpus.ScanSpec(walk, files).blocks, files);
  }

  /** `contents_str`: the fold that appends each block followed by a newline. */
  function ContentsStr(blocks: seq<string>): string {
    if blocks == [] then ""
    else ContentsStr(blocks[..|blocks| - 1]) + blocks[|blocks| - 1] + "\n"
  }

  /** The fold distributes over concatenation of block lists. */
  lemma {:induction false} ContentsStrAppend(a: seq<string>, b: seq<string>)
    ensures ContentsStr(a + b) == ContentsStr(a) + ContentsStr(b)
    decreases |b|
  {
    if b == [] {
      assert a + b == a;
    } else {
      var b' := b[..|b| - 1];
      assert (a + b)[..|a + b| - 1] == a + b';
      ContentsStrAppend(a, b');
    }
  }

  /** One block folds to the block followed by a newline. */
  lemma ContentsStrSingle(block: string)
    ensures ContentsStr([block]) == block + "\n"
  {
    assert [block][..0] == [];
  }

  /** The joined text is `content_size + content_length` bytes long. */
  lemma {:induction false} ContentsStrSize(blocks: seq<string>)
    ensures Utf8Len(ContentsStr(blocks)) == ContentSize(blocks) + |blocks|
    decreases |blocks|
  {
    if blocks != [] {
      var init, last := blocks[..|blocks| - 1], blocks[|blocks| - 1];
      ContentsStrSize(init);
      Utf8LenAppend(ContentsStr(init) + last, "\n");
      Utf8LenAppend(ContentsStr(init), last);
      assert blocks == init + [last];
      ContentSizeAppend(init, [last]);
      assert [last][1..] == [];
    }
  }

  /**
   * `char::is_whitespace`: the Unicode White_Space property.
   */
  predicate IsWhitespace(c: char) {
    ('\U{0009}' <= c <= '\U{000D}') || c == ' ' || c == '\U{0085}' || c == '\U{00A0}' ||
    c == '\U{1680}' || ('\U{2000}' <= c <= '\U{200A}') || c == '\U{2028}' || c == '\U{2029}' ||
    c == '\U{202F}' || c == '\U{205F}' || c == '\U{3000}'
  }

  /** Number of leading whitespace characters. */
  function LeadingWhitespace(s: string): (n: nat)
    ensures n <= |s|
    ensures forall i :: 0 <= i < n ==> IsWhitespace(s[i])
    ensures n < |s| ==> !IsWhitespace(s[n])
  {
    if s == [] || !IsWhitespace(s[0]) then 0
    else 1 + LeadingWhitespace(s[1..])
  }

  /** Number of trailing whitespace characters. */
  function TrailingWhitespace(s: string): (n: nat)
    ensures n <= |s|
    ensures forall i :: |s| - n <= i < |s| ==> IsWhitespace(s[i])
    ensures n < |s| ==> !IsWhitespace(s[|s| - 1 - n])
  {
    if s == [] || !IsWhitespace(s[|s| - 1]) then 0
    else 1 + TrailingWhitespace(s[..|s| - 1])
  }

  /** `str::trim`: drops leading and trailing whitespace. */
  function Trim(s: string): (t: string)
    ensures |t| <= |s|
    ensures t != [] ==> !IsWhitespace(t[0]) && !IsWhitespace(t[|t| - 1])
    ensures (forall i :: 0 <= i < |s| ==> IsWhitespace(s[i])) ==> t == []
  {
    var t := s[LeadingWhitespace(s)..];
    t[..|t| - TrailingWhitespace(t)]
  }

  /**
   * `Trim(s)` is a slice of `s` with only whitespace before it and after it,
   * so exactly the leading and trailing whitespace is removed.
   */
  lemma TrimIsSlice(s: string)
    ensures exists a, b :: 0 <= a <= b <= |s| && Trim(s) == s[a..b] &&
              (forall i :: 0 <= i < a ==> IsWhitespace(s[i])) &&
              (forall i :: b <= i < |s| ==> IsWhitespace(s[i]))
  {
    var a := LeadingWhitespace(s);
    var t := s[a..];
    var b := a + |t| - TrailingWhitespace(t);
    assert Trim(s) == s[a..b];
    forall i | b <= i < |s| ensures IsWhitespace(s[i]) {
      assert s[i] == t[i - a];
    }
  }

  /** Sending goes ahead only when the trimmed answer is exactly `y`. */
  predicate Confirmed(input: string) {
    Trim(input) == "y"
  }

  /** `input` is one `y` at position `k` with only whitespace around it. */
  predicate LoneY(input: string, k: int) {
    0 <= k < |input| && input[k] == 'y' &&
    forall i :: 0 <= i < |input| && i != k ==> IsWhitespace(input[i])
  }

  /**
   * The answer confirms exactly when it is a single `y` surrounded by whitespace
   * only; `Y`, `yes` or an empty answer cancel.
   */
  lemma ConfirmedIff(input: string)
    ensures Confirmed(input) <==> exists k :: LoneY(input, k)
  {
    var n := LeadingWhitespace(input);
    var t := input[n..];
    var m := TrailingWhitespace(t);
    if Confirmed(input) {
      assert |t| - m == 1 && t[0] == 'y';
      assert input[n] == 'y';
      forall i | 0 <= i < |input| && i != n ensures IsWhitespace(input[i]) {
        if i > n { assert input[i] == t[i - n]; }
      }
      assert LoneY(input, n);
    }
    if exists k :: LoneY(input, k) {
      var k :| LoneY(input, k);
      assert !IsWhitespace('y');
      assert n == k;
      assert t[0] == 'y';
      assert forall i :: 1 <= i < |t| ==> IsWhitespace(t[i]) by {
        forall i | 1 <= i < |t| ensures IsWhitespace(t[i]) {
          assert t[i] == input[k + i];
        }
      }
      assert m == |t| - 1;
      assert Trim(input) == t[..1];
    }
  }

  lemma PlainYConfirms()
    ensures Confirmed("y\n")
  {
    ConfirmedIff("y\n");
    assert LoneY("y\n", 0);
  }

  lemma PaddedYConfirms()
    ensures Confirmed("  y \r\n")
  {
    ConfirmedIff("  y \r\n");
    assert LoneY("  y \r\n", 2);
  }

  /** An answer without a lower-case `y` anywhere cancels. */
  lemma NoYCancels(input: string)
    requires 'y' !in input
    ensures !Confirmed(input)
  {
    TrimIsSlice(input);
  }

  lemma OtherAnswersCancel()
    ensures !Confirmed("Y\n") && !Confirmed("yes\n") && !Confirmed("\n") && !Confirmed("")
  {
    NoYCancels("Y\n");
    NoYCancels("\n");
    NoYCancels("");
    YesCancels();
  }

  /** `yes` trims to itself, which is not `y`. */
  lemma YesCancels()
    ensures !Confirmed("yes\n")
  {
    var yes := "yes\n";
    assert !IsWhitespace(yes[0]) && !IsWhitespace(yes[2]) && IsWhitespace(yes[3]);
    assert yes[..3] == "yes";
    assert TrailingWhitespace(yes) == 1;
    assert |Trim(yes)| == 3;
  }
}
