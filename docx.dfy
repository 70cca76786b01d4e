/**
 * `read` of a Word document: the event loop over the XML of
 * `word/document.xml` (WordprocessingML, ECMA-376 Part 1) that collects the
 * text of every `w:t` run, joins the runs without a separator and replaces
 * each ideographic space U+3000 with an ASCII space.
 *
 * The event stream is an input: the sequence of outcomes `read_event` gives
 * the loop. A `Start` event carries the outcome `read_text` would give for
 * that element; the loop consults it only for `w:t`. The events `read_text`
 * consumes while reading a run are not part of the sequence the loop sees.
 * A failed `read_text`, including malformed XML or an early end of file inside
 * a `w:t` run, is dropped by `if let Ok(..)`: only an `Error` event of
 * `read_event` ends `read` with `Err`.
 */
module Docx {
  import opened Wrappers

  datatype XmlEvent =
    | Start(name: string, text: Option<string>)
    | Eof
    | Error(position: nat, detail: string)
    | Other

  /** A tokenising error with the reader's buffer position. */
  datatype ParseError = ParseError(position: nat, detail: string)

  /** The element whose content is run text. */
  const RunTag := "w:t"

  /** The ideographic space the extracted text replaces with `' '`. */
  const IdeographicSpace := '\U{3000}'

  /** The events the loop passes over without effect. */
  predicate Ignored(e: XmlEvent) {
    e.Other? || (e.Start? && (e.name != RunTag || e.text.None?))
  }

  /** Events that end the loop. */
  predicate Stops(e: XmlEvent) {
    e.Eof? || e.Error?
  }

  /** Puts `runs` in front of the runs of a later part of the stream. */
  function PrependRuns(runs: seq<string>, later: Result<seq<string>, ParseError>): Result<seq<string>, ParseError> {
    match later
    case Ok(rs) => Ok(runs + rs)
    case Err(e) => Err(e)
  }

  /**
   * The runs the loop collects, or the error event that ends it. Running out
   * of events reads as end of file.
   */
  function Runs(events: seq<XmlEvent>): Result<seq<string>, ParseError>
    decreases |events|
  {
    if events == [] then Ok([])
    else match events[0]
      case Eof => Ok([])
      case Error(p, d) => Err(ParseError(p, d))
      case Other => Runs(events[1..])
      case Start(n, t) =>
        if n == RunTag && t.Some? then PrependRuns([t.value], Runs(events[1..]))
        else Runs(events[1..])
  }

  /** Reference definition: the texts of all successfully read `w:t` runs, in order. */
  function Captured(events: seq<XmlEvent>): seq<string> {
    if events == [] then []
    else
      var e := events[0];
      (if e.Start? && e.name == RunTag && e.text.Some? then [e.text.value] else []) + Captured(events[1..])
  }

  /** `results.join("")`: the runs concatenated with no separator. */
  function Join(runs: seq<string>): string {
    if runs == [] then "" else runs[0] + Join(runs[1..])
  }

  /** `replace("\u{3000}", " ")`: every U+3000 becomes a space, every other character stays. */
  function Normalize(s: string): (t: string)
    ensures |t| == |s|
    ensures forall i :: 0 <= i < |s| ==> t[i] == (if s[i] == IdeographicSpace then ' ' else s[i])
    ensures IdeographicSpace !in t
  {
    if s == [] then [] else [if s[0] == IdeographicSpace then ' ' else s[0]] + Normalize(s[1..])
  }

  /** The decimal digits of `n`, most significant first, as `{}` formats a `usize`. */
  function Decimal(n: nat): (s: string)
    ensures |s| >= 1
    ensures forall i :: 0 <= i < |s| ==> '0' <= s[i] <= '9'
  {
    var d := ['0' + (n % 10) as char];
    if n < 10 then d else Decimal(n / 10) + d
  }

  /** The number a string of decimal digits denotes. */
  function DecimalValue(s: string): nat
    requires forall i :: 0 <= i < |s| ==> '0' <= s[i] <= '9'
  {
    if s == [] then 0 else DecimalValue(s[..|s| - 1]) * 10 + (s[|s| - 1] as int - '0' as int)
  }

  /** The message `read` returns for a parse error at `position`. */
  function ErrorMessage(position: nat, detail: string): (m: string)
    ensures |m| >= 18 + 1 + 2 + |detail|
    ensures m[..18] == "Error at position "
    ensures m[|m| - |detail|..] == detail
  {
    "Error at position " + Decimal(position) + ": " + detail
  }

  /** What `read` returns for the event stream. */
  function Read(events: seq<XmlEvent>): (r: Result<string, string>)
    ensures r.Ok? ==> IdeographicSpace !in r.value
    ensures r.Err? ==> exists p, d :: r.error == ErrorMessage(p, d)
  {
    match Runs(events)
    case Ok(runs) => Ok(Normalize(Join(runs)))
    case Err(e) => Err(ErrorMessage(e.position, e.detail))
  }

  lemma RunsUnfold(events: seq<XmlEvent>, i: nat)
    requires i < |events|
    ensures events[i..][1..] == events[i + 1..]
    ensures Runs(events[i..]) ==
              match events[i]
              case Eof => Ok([])
              case Error(p, d) => Err(ParseError(p, d))
              case Other => Runs(events[i + 1..])
              case Start(n, t) =>
                if n == RunTag && t.Some? then PrependRuns([t.value], Runs(events[i + 1..]))
                else Runs(events[i + 1..])
  {
    assert events[i..][1..] == events[i + 1..];
  }

  lemma PrependRunsAppend(a: seq<string>, b: seq<string>, later: Result<seq<string>, ParseError>)
    ensures PrependRuns(a, PrependRuns(b, later)) == PrependRuns(a + b, later)
  {
    if later.Ok? {
      assert a + (b + later.value) == (a + b) + later.value;
    }
  }

  /** The loop of `read`, pushing the text of each `w:t` run and returning early on a parse error. */
  method ReadDocument(events: seq<XmlEvent>) returns (r: Result<string, string>)
    ensures r == Read(events)
  {
    var results: seq<string> := [];
    var i := 0;
    assert events[i..] == events;
    assert PrependRuns([], Runs(events)) == Runs(events) by {
      if Runs(events).Ok? { assert [] + Runs(events).value == Runs(events).value; }
    }
    while i < |events|
      invariant 0 <= i <= |events|
      invariant Runs(events) == PrependRuns(results, Runs(events[i..]))
    {
      RunsUnfold(events, i);
      match events[i] {
        case Eof =>
          assert results + [] == results;
          r := Ok(Normalize(Join(results)));
          return;
        case Error(p, d) =>
          r := Err(ErrorMessage(p, d));
          return;
        case Other =>
        case Start(n, t) =>
          if n == RunTag && t.Some? {
            PrependRunsAppend(results, [t.value], Runs(events[i + 1..]));
            results := results + [t.value];
          }
      }
      i := i + 1;
    }
    assert events[i..] == [];
    assert results + [] == results;
    r := Ok(Normalize(Join(results)));
  }

  /** A run of non-stopping events yields its captured texts, whatever follows an end of file. */
  lemma {:induction false} RunsOfBody(body: seq<XmlEvent>, tail: seq<XmlEvent>)
    requires forall k :: 0 <= k < |body| ==> !Stops(body[k])
    ensures Runs(body) == Ok(Captured(body))
    ensures Runs(body + [Eof] + tail) == Ok(Captured(body))
  {
    if body == [] {
      assert body + [Eof] + tail == [Eof] + tail;
    } else {
      assert (body + [Eof] + tail)[1..] == body[1..] + [Eof] + tail;
      assert (body + [Eof] + tail)[0] == body[0];
      assert !Stops(body[0]);
      RunsOfBody(body[1..], tail);
      var e := body[0];
      if e.Start? && e.name == RunTag && e.text.Some? {
        assert Runs(body) == PrependRuns([e.text.value], Runs(body[1..]));
      } else {
        assert Runs(body) == Runs(body[1..]);
        assert Captured(body) == [] + Captured(body[1..]) == Captured(body[1..]);
      }
    }
  }

  /** A parse error returns the error and no partial text, whatever came before or after it. */
  lemma {:induction false} RunsOfError(body: seq<XmlEvent>, p: nat, d: string, tail: seq<XmlEvent>)
    requires forall k :: 0 <= k < |body| ==> !Stops(body[k])
    ensures Runs(body + [Error(p, d)] + tail) == Err(ParseError(p, d))
  {
    if body == [] {
      assert body + [Error(p, d)] + tail == [Error(p, d)] + tail;
    } else {
      assert (body + [Error(p, d)] + tail)[1..] == body[1..] + [Error(p, d)] + tail;
      assert (body + [Error(p, d)] + tail)[0] == body[0];
      assert !Stops(body[0]);
      RunsOfError(body[1..], p, d, tail);
    }
  }

  /** On success the text is the captured runs joined in order, with U+3000 replaced. */
  lemma ReadOfBody(body: seq<XmlEvent>, tail: seq<XmlEvent>)
    requires forall k :: 0 <= k < |body| ==> !Stops(body[k])
    ensures Read(body) == Ok(Normalize(Join(Captured(body))))
    ensures Read(body + [Eof] + tail) == Ok(Normalize(Join(Captured(body))))
  {
    RunsOfBody(body, tail);
  }

  /** A parse error makes `read` return the positioned message. */
  lemma ReadOfError(body: seq<XmlEvent>, p: nat, d: string, tail: seq<XmlEvent>)
    requires forall k :: 0 <= k < |body| ==> !Stops(body[k])
    ensures Read(body + [Error(p, d)] + tail) == Err(ErrorMessage(p, d))
  {
    RunsOfError(body, p, d, tail);
  }

  /** `read` succeeds exactly when an end of file, or the end of the stream, comes before any parse error. */
  lemma {:induction false} ReadFailsIffError(events: seq<XmlEvent>)
    ensures Read(events).Err? <==>
              exists k :: 0 <= k < |events| && events[k].Error? && forall j :: 0 <= j < k ==> !Stops(events[j])
  {
    if events != [] {
      ReadFailsIffError(events[1..]);
      var e := events[0];
      if e.Eof? {
        forall k | 0 <= k < |events| && events[k].Error?
          ensures exists j :: 0 <= j < k && Stops(events[j])
        {
          assert 0 < k && Stops(events[0]);
        }
      } else if e.Error? {
        assert events[0].Error?;
      } else {
        if exists k :: 0 <= k < |events[1..]| && events[1..][k].Error? && forall j :: 0 <= j < k ==> !Stops(events[1..][j]) {
          var k :| 0 <= k < |events[1..]| && events[1..][k].Error? && forall j :: 0 <= j < k ==> !Stops(events[1..][j]);
          assert events[k + 1].Error?;
          assert forall j :: 0 <= j < k + 1 ==> !Stops(events[j]) by {
            forall j | 0 <= j < k + 1 ensures !Stops(events[j]) {
              if j > 0 { assert events[j] == events[1..][j - 1]; }
            }
          }
        }
        if exists k :: 0 <= k < |events| && events[k].Error? && forall j :: 0 <= j < k ==> !Stops(events[j]) {
          var k :| 0 <= k < |events| && events[k].Error? && forall j :: 0 <= j < k ==> !Stops(events[j]);
          assert k > 0;
          assert events[1..][k - 1].Error?;
          assert forall j :: 0 <= j < k - 1 ==> !Stops(events[1..][j]) by {
            forall j | 0 <= j < k - 1 ensures !Stops(events[1..][j]) {
              assert events[1..][j] == events[j + 1];
            }
          }
        }
        if e.Start? && e.name == RunTag && e.text.Some? {
          assert Runs(events) == PrependRuns([e.text.value], Runs(events[1..]));
        }
      }
    }
  }

  /** An ignored event (another element, a failed `read_text`, any other event) changes nothing. */
  lemma {:induction false} IgnoredEventNeutral(before: seq<XmlEvent>, e: XmlEvent, after: seq<XmlEvent>)
    requires Ignored(e)
    ensures Runs(before + [e] + after) == Runs(before + after)
    ensures Read(before + [e] + after) == Read(before + after)
  {
    if before == [] {
      assert before + [e] + after == [e] + after;
      assert ([e] + after)[1..] == after;
      assert before + after == after;
    } else {
      assert (before + [e] + after)[1..] == before[1..] + [e] + after;
      assert (before + after)[1..] == before[1..] + after;
      assert (before + [e] + after)[0] == before[0] == (before + after)[0];
      IgnoredEventNeutral(before[1..], e, after);
    }
  }

  /** A `w:t` run whose text cannot be read is skipped and extraction goes on. */
  lemma FailedRunSkipped(before: seq<XmlEvent>, after: seq<XmlEvent>)
    ensures Read(before + [Start(RunTag, None)] + after) == Read(before + after)
  {
    IgnoredEventNeutral(before, Start(RunTag, None), after);
  }

  lemma {:induction false} JoinAppend(a: seq<string>, b: seq<string>)
    ensures Join(a + b) == Join(a) + Join(b)
  {
    if a == [] {
      assert a + b == b;
    } else {
      assert (a + b)[1..] == a[1..] + b;
      JoinAppend(a[1..], b);
    }
  }

  /** Normalising twice is normalising once. */
  lemma NormalizeIdempotent(s: string)
    ensures Normalize(Normalize(s)) == Normalize(s)
  {
    var t := Normalize(s);
    var u := Normalize(t);
    forall i | 0 <= i < |t| ensures u[i] == t[i] {
      assert t[i] == (if s[i] == IdeographicSpace then ' ' else s[i]);
    }
  }

  /** Text free of U+3000 passes through unchanged. */
  lemma NormalizeKeepsPlainText(s: string)
    requires IdeographicSpace !in s
    ensures Normalize(s) == s
  {
    var t := Normalize(s);
    forall i | 0 <= i < |s| ensures t[i] == s[i] {
      assert s[i] != IdeographicSpace;
    }
  }

  /** Reading the digits back gives the number. */
  lemma {:induction false} DecimalRoundTrip(n: nat)
    ensures DecimalValue(Decimal(n)) == n
  {
    var d := ['0' + (n % 10) as char];
    if n >= 10 {
      DecimalRoundTrip(n / 10);
      var s := Decimal(n / 10) + d;
      assert s[..|s| - 1] == Decimal(n / 10);
    }
  }

  /** After the fixed prefix the message has the position's digits, then a colon. */
  lemma MessageAt(p: nat, d: string, k: nat)
    ensures k < |Decimal(p)| ==> ErrorMessage(p, d)[18 + k] == Decimal(p)[k]
    ensures k == |Decimal(p)| ==> ErrorMessage(p, d)[18 + k] == ':'
  {
  }

  /** The message splits back into the position's digits and the detail. */
  lemma MessageParts(p: nat, d: string)
    ensures ErrorMessage(p, d)[18..18 + |Decimal(p)|] == Decimal(p)
    ensures ErrorMessage(p, d)[18 + |Decimal(p)| + 2..] == d
  {
    var m := ErrorMessage(p, d);
    assert m == ("Error at position " + Decimal(p)) + (": " + d);
  }

  /** The error message determines the position and the detail it was made from. */
  lemma ErrorMessageInjective(p1: nat, d1: string, p2: nat, d2: string)
    requires ErrorMessage(p1, d1) == ErrorMessage(p2, d2)
    ensures p1 == p2 && d1 == d2
  {
    var s1, s2 := Decimal(p1), Decimal(p2);
    if |s1| < |s2| {
      MessageAt(p1, d1, |s1|);
      MessageAt(p2, d2, |s1|);
      assert false;
    } else if |s2| < |s1| {
      MessageAt(p1, d1, |s2|);
      MessageAt(p2, d2, |s2|);
      assert false;
    } else {
      MessageParts(p1, d1);
      MessageParts(p2, d2);
      DecimalRoundTrip(p1);
      DecimalRoundTrip(p2);
    }
  }

  /** Two runs `Hello` and `, world!` between other markup read as `Hello, world!`. */
  lemma HelloWorld()
    ensures Read([Start("w:p", None), Start(RunTag, Some("Hello")), Other,
                  Start(RunTag, Some(", world!")), Eof]) == Ok("Hello, world!")
  {
    var events := [Start("w:p", None), Start(RunTag, Some("Hello")), Other,
                   Start(RunTag, Some(", world!")), Eof];
    var body := events[..4];
    RunsOfBody(body, []);
    assert events == body + [Eof] + [];
    assert Captured(body[3..]) == [", world!"] by { assert body[3..][1..] == []; }
    assert Captured(body[2..]) == [", world!"] by { assert body[2..][1..] == body[3..]; }
    assert Captured(body[1..]) == ["Hello", ", world!"] by { assert body[1..][1..] == body[2..]; }
    assert Captured(body) == ["Hello", ", world!"];
    assert Join(["Hello", ", world!"]) == "Hello, world!";
    NormalizeKeepsPlainText("Hello, world!");
  }
}
