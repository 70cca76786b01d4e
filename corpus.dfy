/**
 * Corpus assembly (`scan_for_files` and the aggregates `main` computes over its
 * result): each walk entry whose path the classifier accepts becomes one
 * labelled text block, in walk order.
 *
 * The directory walker and the file system are inputs: the walk is the
 * sequence of entries the walker yields, and `Files` maps every path that
 * `fs::read_to_string` can read to its text.
 */
module Corpus {
  import opened Wrappers
  import opened Paths
  import opened Classifier

  /** One item yielded by the walker: a path, or a per-entry error. */
  datatype WalkEntry = Entry(path: OsStr) | WalkError(message: string)

  /** The readable files and their UTF-8 text; a path not in the map fails to read. */
  type Files = map<OsStr, string>

  /** Why `scan_for_files` panics: a failed `read_to_string`, or a path that is not UTF-8. */
  datatype Panic = ReadFailed(path: OsStr) | PathNotUtf8(path: OsStr)

  datatype Scan = Done(blocks: seq<string>) | Panicked(panic: Panic)

  /** The indentation the block template carries on its continuation lines. */
  const Indent: string := "                    "

  /** Characters the template adds around the path, the extension and the content. */
  const TemplateSize: nat := 107

  /** The block template: path, blank line, a fenced section tagged with the extension, a rule. */
  function Block(path: string, ext: string, content: string): (b: string)
    ensures |b| == |path| + |ext| + |content| + TemplateSize
    ensures b[..|path|] == path
    ensures b[|path| + 25..|path| + 25 + |ext|] == ext
    ensures b[|path| + |ext| + 46..|path| + |ext| + 46 + |content|] == content
    ensures b[|b| - 16..] == "\n\n------------\n\n"
  {
    path + "\n\n" + Indent + "```" + ext + "\n" + Indent + content + "\n" + Indent + "```\n" + Indent + "\n\n------------\n\n"
  }

  /** A path whose block can be built: its file reads and its text is UTF-8. */
  predicate Readable(p: OsStr, files: Files) {
    p in files && ToStr(p).Some?
  }

  /** The block pushed for an accepted, readable path. */
  function FileBlock(p: OsStr, files: Files): string
    requires IsDocumentOrSourceCode(p) && Readable(p, files)
  {
    Block(ToStr(p).value, ExtensionStr(p).value, files[p])
  }

  /** The panic an accepted path that is not readable raises: the read comes first. */
  function PanicFor(p: OsStr, files: Files): Panic {
    if p !in files then ReadFailed(p) else PathNotUtf8(p)
  }

  /** Puts `blocks` in front of the blocks of a later part of the walk. */
  function After(blocks: seq<string>, later: Scan): Scan {
    match later
    case Done(bs) => Done(blocks + bs)
    case Panicked(p) => Panicked(p)
  }

  /** `scan_for_files` over the walk, entry by entry. */
  function ScanSpec(walk: seq<WalkEntry>, files: Files): Scan
    decreases |walk|
  {
    if walk == [] then Done([])
    else match walk[0]
      case WalkError(_) => ScanSpec(walk[1..], files)
      case Entry(p) =>
        if !IsDocumentOrSourceCode(p) then ScanSpec(walk[1..], files)
        else if !Readable(p, files) then Panicked(PanicFor(p, files))
        else After([FileBlock(p, files)], ScanSpec(walk[1..], files))
  }

  /** The accepted paths of the walk, in walk order. */
  function Eligible(walk: seq<WalkEntry>): (r: seq<OsStr>)
    ensures forall k :: 0 <= k < |r| ==> IsDocumentOrSourceCode(r[k])
  {
    if walk == [] then []
    else
      var rest := Eligible(walk[1..]);
      match walk[0]
      case WalkError(_) => rest
      case Entry(p) => if IsDocumentOrSourceCode(p) then [p] + rest else rest
  }

  method ScanForFiles(walk: seq<WalkEntry>, files: Files) returns (r: Scan)
    ensures r == ScanSpec(walk, files)
  {
    var blocks: seq<string> := [];
    var i := 0;
    while i < |walk|
      invariant i <= |walk|
      invariant ScanSpec(walk, files) == After(blocks, ScanSpec(walk[i..], files))
    {
      ScanUnfold(walk[i..], files);
      assert walk[i..][1..] == walk[i + 1..];
      ghost var later := ScanSpec(walk[i + 1..], files);
      match walk[i] {
        case WalkError(_) =>
        case Entry(p) =>
          if IsDocumentOrSourceCode(p) {
            if p !in files {
              return Panicked(ReadFailed(p));
            }
            var path := ToStr(p);
            if path.None? {
              return Panicked(PathNotUtf8(p));
            }
            var ext := ExtensionStr(p);
            var block := Block(path.value, ext.value, files[p]);
            assert block == FileBlock(p, files);
            AfterAppend(blocks, [block], later);
            blocks := blocks + [block];
          }
      }
      i := i + 1;
    }
    assert walk[i..] == [];
    return Done(blocks);
  }

  lemma AfterAppend(a: seq<string>, b: seq<string>, s: Scan)
    ensures After(a, After(b, s)) == After(a + b, s)
  {
    if s.Done? {
      assert a + (b + s.blocks) == (a + b) + s.blocks;
    }
  }

  /** One step of the scan: what the first entry contributes in front of the rest. */
  lemma ScanUnfold(walk: seq<WalkEntry>, files: Files)
    requires walk != []
    ensures (walk[0].WalkError? || !IsDocumentOrSourceCode(walk[0].path)) ==>
              ScanSpec(walk, files) == ScanSpec(walk[1..], files)
    ensures walk[0].Entry? && IsDocumentOrSourceCode(walk[0].path) && !Readable(walk[0].path, files) ==>
              ScanSpec(walk, files) == Panicked(PanicFor(walk[0].path, files))
    ensures walk[0].Entry? && IsDocumentOrSourceCode(walk[0].path) && Readable(walk[0].path, files) ==>
              ScanSpec(walk, files) == After([FileBlock(walk[0].path, files)], ScanSpec(walk[1..], files))
  {
  }

  /** The scan of a walk that continues after `first`. */
  function Then(first: Scan, second: Scan): Scan {
    match first
    case Done(bs) => After(bs, second)
    case Panicked(p) => Panicked(p)
  }

  /** Splitting the walk splits the output: blocks come out in walk order. */
  lemma {:induction false} ScanAppend(a: seq<WalkEntry>, b: seq<WalkEntry>, files: Files)
    ensures ScanSpec(a + b, files) == Then(ScanSpec(a, files), ScanSpec(b, files))
    decreases |a|
  {
    if a == [] {
      assert a + b == b;
      assert After([], ScanSpec(b, files)) == ScanSpec(b, files);
    } else {
      ScanUnfold(a, files);
      ScanUnfold(a + b, files);
      assert (a + b)[0] == a[0];
      assert (a + b)[1..] == a[1..] + b;
      ScanAppend(a[1..], b, files);
      var e := a[0];
      if e.Entry? && IsDocumentOrSourceCode(e.path) && Readable(e.path, files) {
        var blk := [FileBlock(e.path, files)];
        var rest := ScanSpec(a[1..], files);
        if rest.Done? {
          AfterAppend(blk, rest.blocks, ScanSpec(b, files));
        }
      }
    }
  }

  /** A walk error contributes nothing and does not stop the scan. */
  lemma ScanSkipsWalkErrors(a: seq<WalkEntry>, message: string, b: seq<WalkEntry>, files: Files)
    ensures ScanSpec(a + [WalkError(message)] + b, files) == ScanSpec(a + b, files)
  {
    var err := [WalkError(message)];
    ScanAppend(a + err, b, files);
    ScanAppend(a, err, files);
    ScanAppend(a, b, files);
    ScanUnfold(err, files);
    assert err[1..] == [];
    match ScanSpec(a, files)
    case Panicked(_) =>
    case Done(bs) =>
      assert bs + [] == bs;
  }

  lemma EligibleUnfold(walk: seq<WalkEntry>)
    requires walk != []
    ensures walk[0].Entry? && IsDocumentOrSourceCode(walk[0].path) ==>
              Eligible(walk) == [walk[0].path] + Eligible(walk[1..])
    ensures !(walk[0].Entry? && IsDocumentOrSourceCode(walk[0].path)) ==>
              Eligible(walk) == Eligible(walk[1..])
  {
  }

  /** A property holds for every element of `[x] + xs` exactly when it holds for `x` and every element of `xs`. */
  lemma AllCons<A>(prop: A -> bool, x: A, xs: seq<A>)
    ensures (forall k :: 0 <= k < |[x] + xs| ==> prop(([x] + xs)[k])) <==>
              prop(x) && forall k :: 0 <= k < |xs| ==> prop(xs[k])
  {
    var e := [x] + xs;
    assert e[0] == x;
    assert forall k :: 0 <= k < |xs| ==> xs[k] == e[k + 1];
  }

  /** The scan completes exactly when every accepted path of the walk is readable. */
  lemma {:induction false} ScanDoneIffReadable(walk: seq<WalkEntry>, files: Files)
    ensures ScanSpec(walk, files).Done? <==>
              forall k :: 0 <= k < |Eligible(walk)| ==> Readable(Eligible(walk)[k], files)
    decreases |walk|
  {
    if walk != [] {
      ScanUnfold(walk, files);
      EligibleUnfold(walk);
      ScanDoneIffReadable(walk[1..], files);
      var x := walk[0];
      if x.Entry? && IsDocumentOrSourceCode(x.path) {
        AllCons(q => Readable(q, files), x.path, Eligible(walk[1..]));
      }
    }
  }

  /** `block` is the block pushed for the accepted, readable path `p`. */
  predicate BlockOf(p: OsStr, block: string, files: Files) {
    IsDocumentOrSourceCode(p) && Readable(p, files) && block == FileBlock(p, files)
  }

  /** `blocks` holds one block per path of `accepted`, position by position. */
  predicate BlocksFor(accepted: seq<OsStr>, blocks: seq<string>, files: Files) {
    |blocks| == |accepted| &&
    forall k :: 0 <= k < |accepted| ==> BlockOf(accepted[k], blocks[k], files)
  }

  /** A relation that holds position by position keeps holding after a pair is put in front. */
  lemma PairwiseCons<A, B>(rel: (A, B) -> bool, x: A, y: B, xs: seq<A>, ys: seq<B>)
    requires rel(x, y) && |xs| == |ys|
    requires forall k :: 0 <= k < |xs| ==> rel(xs[k], ys[k])
    ensures forall k :: 0 <= k < |[x] + xs| ==> rel(([x] + xs)[k], ([y] + ys)[k])
  {
    var e, f := [x] + xs, [y] + ys;
    forall k | 1 <= k < |e| ensures rel(e[k], f[k]) {
      assert e[k] == xs[k - 1] && f[k] == ys[k - 1];
    }
  }

  lemma BlocksForCons(p: OsStr, accepted: seq<OsStr>, blocks: seq<string>, files: Files)
    requires IsDocumentOrSourceCode(p) && Readable(p, files)
    requires BlocksFor(accepted, blocks, files)
    ensures BlocksFor([p] + accepted, [FileBlock(p, files)] + blocks, files)
  {
    PairwiseCons((q, b) => BlockOf(q, b, files), p, FileBlock(p, files), accepted, blocks);
  }

  /** A completed scan holds exactly one block per accepted path, in walk order. */
  lemma {:induction false} ScanBlocksMatchEligible(walk: seq<WalkEntry>, files: Files)
    requires ScanSpec(walk, files).Done?
    ensures BlocksFor(Eligible(walk), ScanSpec(walk, files).blocks, files)
    decreases |walk|
  {
    if walk != [] {
      ScanUnfold(walk, files);
      EligibleUnfold(walk);
      ScanBlocksMatchEligible(walk[1..], files);
      var x := walk[0];
      if x.Entry? && IsDocumentOrSourceCode(x.path) {
        BlocksForCons(x.path, Eligible(walk[1..]), ScanSpec(walk[1..], files).blocks, files);
      }
    }
  }

  /** A property that holds for `x` and the first `k` elements of `xs` holds for the first `k + 1` of `[x] + xs`. */
  lemma PrefixCons<A>(prop: A -> bool, x: A, xs: seq<A>, k: nat)
    requires prop(x) && k <= |xs|
    requires forall j :: 0 <= j < k ==> prop(xs[j])
    ensures forall j :: 0 <= j < k + 1 ==> prop(([x] + xs)[j])
  {
    var e := [x] + xs;
    forall j | 1 <= j < k + 1 ensures prop(e[j]) {
      assert e[j] == xs[j - 1];
    }
  }

  /** Position `k` holds the first path of `accepted` that is not readable. */
  predicate FirstUnreadableAt(accepted: seq<OsStr>, k: int, files: Files) {
    0 <= k < |accepted| && !Readable(accepted[k], files) &&
    forall j :: 0 <= j < k ==> Readable(accepted[j], files)
  }

  /** A scan that panics does so on the first accepted path that is not readable. */
  lemma {:induction false} ScanPanicsOnFirstUnreadable(walk: seq<WalkEntry>, files: Files)
    requires ScanSpec(walk, files).Panicked?
    ensures exists k :: FirstUnreadableAt(Eligible(walk), k, files) &&
              ScanSpec(walk, files).panic == PanicFor(Eligible(walk)[k], files)
    decreases |walk|
  {
    ScanUnfold(walk, files);
    EligibleUnfold(walk);
    var x := walk[0];
    var e := Eligible(walk);
    if x.Entry? && IsDocumentOrSourceCode(x.path) && !Readable(x.path, files) {
      assert e[0] == x.path;
      assert FirstUnreadableAt(e, 0, files);
    } else {
      ScanPanicsOnFirstUnreadable(walk[1..], files);
      var e' := Eligible(walk[1..]);
      var k :| FirstUnreadableAt(e', k, files) && ScanSpec(walk[1..], files).panic == PanicFor(e'[k], files);
      assert ScanSpec(walk, files).panic == ScanSpec(walk[1..], files).panic;
      if x.Entry? && IsDocumentOrSourceCode(x.path) {
        assert e == [x.path] + e';
        PrefixCons(q => Readable(q, files), x.path, e', k);
        assert e[k + 1] == e'[k];
        assert FirstUnreadableAt(e, k + 1, files);
      } else {
        assert FirstUnreadableAt(e, k, files);
      }
    }
  }

  /** An accepted file that cannot be read stops the whole scan: nothing is skipped. */
  lemma UnreadableFileAbortsScan(walk: seq<WalkEntry>, k: nat, files: Files)
    requires k < |walk| && walk[k].Entry? && IsDocumentOrSourceCode(walk[k].path)
    requires walk[k].path !in files
    ensures ScanSpec(walk, files).Panicked?
  {
    var rest := walk[k..];
    assert rest[0] == walk[k];
    PanicCarries(walk[..k], rest, files);
    assert walk[..k] + rest == walk;
  }

  /** A panic in the later part of a walk is a panic of the whole walk. */
  lemma PanicCarries(a: seq<WalkEntry>, b: seq<WalkEntry>, files: Files)
    requires ScanSpec(b, files).Panicked?
    ensures ScanSpec(a + b, files).Panicked?
  {
    ScanAppend(a, b, files);
  }
}
