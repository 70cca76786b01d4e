/**
 * `get_content`: the text of the first part of the first candidate of a
 * Gemini `generateContent` response, found by chaining serde_json's
 * `Value::get` along `candidates[0].content.parts[0].text`.
 */
module Gemini {
  import opened Wrappers

  /** A JSON value. Numbers keep their literal text; their arithmetic plays no part here. */
  datatype Json =
    | Null
    | Bool(b: bool)
    | Number(literal: string)
    | String(s: string)
    | Array(items: seq<Json>)
    | Object(fields: map<string, Json>)

  /** What `get` is given: a member name or an array position. */
  datatype Index = Key(name: string) | At(position: nat)

  /** The three ways `get_content` ends: the text, the `Err` naming the response, or the `expect` panic. */
  datatype Content = Found(text: string) | NotFound(response: Json) | NotAString(value: Json)

  /**
   * serde_json `Value::get`: a member of an object or an element of an array;
   * None for a missing member, a position past the end, or a value of the
   * other kind.
   */
  function Get(v: Json, ix: Index): (r: Option<Json>)
    ensures r.Some? && ix.Key? ==> v.Object? && ix.name in v.fields
    ensures r.Some? && ix.At? ==> v.Array? && ix.position < |v.items|
    ensures ix.Key? && v.Object? && ix.name in v.fields ==> r == Some(v.fields[ix.name])
    ensures ix.At? && v.Array? && ix.position < |v.items| ==> r == Some(v.items[ix.position])
  {
    match ix
    case Key(k) => if v.Object? && k in v.fields then Some(v.fields[k]) else None
    case At(i) => if v.Array? && i < |v.items| then Some(v.items[i]) else None
  }

  /** `and_then(|x| x.get(ix))`. */
  function AndThenGet(o: Option<Json>, ix: Index): Option<Json> {
    match o
    case None => None
    case Some(w) => Get(w, ix)
  }

  /** Reference definition: the value a path of indices leads to, if every step exists. */
  function Pointer(v: Json, path: seq<Index>): Option<Json>
    decreases |path|
  {
    if path == [] then Some(v)
    else match Get(v, path[0])
      case None => None
      case Some(w) => Pointer(w, path[1..])
  }

  /** The location of the generated text in a response. */
  const TextPath := [Key("candidates"), At(0), Key("content"), Key("parts"), At(0), Key("text")]

  /** The value at `candidates[0].content.parts[0].text`, if there is one. */
  function Located(v: Json): Option<Json> {
    Pointer(v, TextPath)
  }

  /** `get_content`, step by step as the source chains the lookups. */
  function GetContent(v: Json): (r: Content)
    ensures r.NotFound? ==> r.response == v
    ensures r.NotAString? ==> !r.value.String?
  {
    var result :=
      AndThenGet(AndThenGet(AndThenGet(AndThenGet(AndThenGet(
        Get(v, Key("candidates")), At(0)), Key("content")), Key("parts")), At(0)), Key("text"));
    match result
    case None => NotFound(v)
    case Some(w) => if w.String? then Found(w.s) else NotAString(w)
  }

  /** Following one more index extends a path lookup by one `and_then`. */
  lemma {:induction false} PointerSnoc(v: Json, path: seq<Index>, ix: Index)
    ensures Pointer(v, path + [ix]) == AndThenGet(Pointer(v, path), ix)
    decreases |path|
  {
    if path == [] {
      assert ([] + [ix])[1..] == [];
    } else {
      assert (path + [ix])[0] == path[0];
      assert (path + [ix])[1..] == path[1..] + [ix];
      match Get(v, path[0])
      case None =>
      case Some(w) => PointerSnoc(w, path[1..], ix);
    }
  }

  /** The chain of lookups in `get_content` is the path lookup along `TextPath`. */
  lemma ChainIsPointer(v: Json)
    ensures Located(v) ==
              AndThenGet(AndThenGet(AndThenGet(AndThenGet(AndThenGet(
                Get(v, Key("candidates")), At(0)), Key("content")), Key("parts")), At(0)), Key("text"))
  {
    var p := TextPath;
    assert Pointer(v, []) == Some(v);
    PointerSnoc(v, [], p[0]);
    assert [] + [p[0]] == p[..1];
    PointerSnoc(v, p[..1], p[1]);
    assert p[..1] + [p[1]] == p[..2];
    PointerSnoc(v, p[..2], p[2]);
    assert p[..2] + [p[2]] == p[..3];
    PointerSnoc(v, p[..3], p[3]);
    assert p[..3] + [p[3]] == p[..4];
    PointerSnoc(v, p[..4], p[4]);
    assert p[..4] + [p[4]] == p[..5];
    PointerSnoc(v, p[..5], p[5]);
    assert p[..5] + [p[5]] == p;
  }

  /**
   * `get_content` returns the located text unchanged exactly when it is a
   * string, returns `Err` with the whole response exactly when some step is
   * missing, and panics exactly when the located value is not a string.
   */
  lemma GetContentOutcomes(v: Json)
    ensures forall s :: GetContent(v) == Found(s) <==> Located(v) == Some(String(s))
    ensures GetContent(v).NotFound? <==> Located(v).None?
    ensures GetContent(v).NotFound? ==> GetContent(v).response == v
    ensures forall w :: GetContent(v) == NotAString(w) <==> Located(v) == Some(w) && !w.String?
  {
    ChainIsPointer(v);
  }

  /** A response that is not an object, or has no `candidates` member, gives `Err`. */
  lemma NoCandidatesNotFound(v: Json)
    requires !v.Object? || "candidates" !in v.fields
    ensures GetContent(v) == NotFound(v)
  {
  }

  /** An empty `candidates` array gives `Err`. */
  lemma EmptyCandidatesNotFound(f: map<string, Json>)
    requires "candidates" in f && f["candidates"] == Array([])
    ensures GetContent(Object(f)) == NotFound(Object(f))
  {
  }

  /** An empty `parts` array in the first candidate gives `Err`. */
  lemma EmptyPartsNotFound(f: map<string, Json>, c: seq<Json>, g: map<string, Json>, h: map<string, Json>)
    requires "candidates" in f && f["candidates"] == Array(c) && |c| > 0 && c[0] == Object(g)
    requires "content" in g && g["content"] == Object(h)
    requires "parts" in h && h["parts"] == Array([])
    ensures GetContent(Object(f)) == NotFound(Object(f))
  {
  }

  /** Candidates after the first never change what is located. */
  lemma ExtraCandidatesIgnored(f: map<string, Json>, c: seq<Json>, more: seq<Json>)
    requires "candidates" in f && f["candidates"] == Array(c) && |c| > 0
    ensures Located(Object(f["candidates" := Array(c + more)])) == Located(Object(f))
  {
    var v, v' := Object(f), Object(f["candidates" := Array(c + more)]);
    ChainIsPointer(v);
    ChainIsPointer(v');
    assert (c + more)[0] == c[0];
  }

  /** Parts after the first in the first candidate never change what is located. */
  lemma ExtraPartsIgnored(f: map<string, Json>, c: seq<Json>, g: map<string, Json>, h: map<string, Json>,
                          ps: seq<Json>, more: seq<Json>)
    requires "candidates" in f && f["candidates"] == Array(c) && |c| > 0 && c[0] == Object(g)
    requires "content" in g && g["content"] == Object(h)
    requires "parts" in h && h["parts"] == Array(ps) && |ps| > 0
    ensures
      var h' := h["parts" := Array(ps + more)];
      var g' := g["content" := Object(h')];
      Located(Object(f["candidates" := Array([Object(g')] + c[1..])])) == Located(Object(f))
  {
    var h' := h["parts" := Array(ps + more)];
    var g' := g["content" := Object(h')];
    var v, v' := Object(f), Object(f["candidates" := Array([Object(g')] + c[1..])]);
    ChainIsPointer(v);
    ChainIsPointer(v');
    assert (ps + more)[0] == ps[0];
  }

  /** When the text is found, extra candidates leave the whole result unchanged. */
  lemma ExtraCandidatesKeepText(f: map<string, Json>, c: seq<Json>, more: seq<Json>)
    requires "candidates" in f && f["candidates"] == Array(c) && |c| > 0
    requires !GetContent(Object(f)).NotFound?
    ensures GetContent(Object(f["candidates" := Array(c + more)])) == GetContent(Object(f))
  {
    var v, v' := Object(f), Object(f["candidates" := Array(c + more)]);
    ExtraCandidatesIgnored(f, c, more);
    GetContentOutcomes(v);
    GetContentOutcomes(v');
    ChainIsPointer(v);
    ChainIsPointer(v');
  }

  /** A typical response: one candidate whose single part holds the generated document. */
  lemma TypicalResponse()
    ensures
      var part := Object(map["text" := String("# Overview")]);
      var content := Object(map["parts" := Array([part]), "role" := String("model")]);
      var candidate := Object(map["content" := content, "finishReason" := String("STOP")]);
      GetContent(Object(map["candidates" := Array([candidate])])) == Found("# Overview")
  {
  }

  /** A `text` member that holds a number makes `get_content` panic. */
  lemma NumericTextPanics()
    ensures
      var part := Object(map["text" := Number("42")]);
      var content := Object(map["parts" := Array([part])]);
      var candidate := Object(map["content" := content]);
      GetContent(Object(map["candidates" := Array([candidate])])) == NotAString(Number("42"))
  {
  }
}
