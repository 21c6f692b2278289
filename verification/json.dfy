/**
 The part of serde_json's `Value` the collector reads: indexing by member name
 (which yields `Null` for anything that is not there) and the `as_str` /
 `as_i64` views of a leaf.
 */
module Json {
  import opened Wrappers
  import opened Int64

  /** A parsed JSON document. `Int` holds the integer literals serde_json keeps as
      integers: those in the `i64` or `u64` range, except `-0`. Every other number
      (fractions, exponents, `-0`, integers below `i64::MIN` or above `u64::MAX`)
      is a `Float` holding its text, since nothing here reads it. */
  datatype Value =
    | Null
    | Bool(b: bool)
    | Int(n: int)
    | Float(literal: string)
    | Str(s: string)
    | Array(items: seq<Value>)
    | Object(members: map<string, Value>)

  /** `v[key]`: the member when `v` is an object that has it, `Null` otherwise. */
  function Member(v: Value, key: string): (r: Value)
    ensures r != Null ==> v.Object? && key in v.members && r == v.members[key]
    ensures v.Object? && key in v.members ==> r == v.members[key]
  {
    if v.Object? && key in v.members then v.members[key] else Null
  }

  /** `v[p0][p1]...`: repeated member indexing along `path`. */
  function At(v: Value, path: seq<string>): Value
    decreases |path|
  {
    if |path| == 0 then v else At(Member(v, path[0]), path[1..])
  }

  /** The smallest document holding `leaf` at `path`. */
  function Nest(path: seq<string>, leaf: Value): Value
    decreases |path|
  {
    if |path| == 0 then leaf else Object(map[path[0] := Nest(path[1..], leaf)])
  }

  /** Indexing along a path finds what was nested along it. */
  lemma {:induction false} AtNest(path: seq<string>, leaf: Value)
    ensures At(Nest(path, leaf), path) == leaf
    decreases |path|
  {
    if |path| > 0 {
      AtNest(path[1..], leaf);
    }
  }

  /** Indexing `Null` (or anything that has run off the document) stays `Null`. */
  lemma {:induction false} AtNull(path: seq<string>)
    ensures At(Null, path) == Null
    decreases |path|
  {
    if |path| > 0 {
      AtNull(path[1..]);
    }
  }

  /** Indexing along `p + q` is indexing along `p`, then along `q`. */
  lemma {:induction false} AtConcat(v: Value, p: seq<string>, q: seq<string>)
    ensures At(v, p + q) == At(At(v, p), q)
    decreases |p|
  {
    if |p| > 0 {
      assert (p + q)[0] == p[0];
      assert (p + q)[1..] == p[1..] + q;
      AtConcat(Member(v, p[0]), p[1..], q);
    } else {
      assert p + q == q;
    }
  }

  /** A document that lacks some member along the path yields `Null` at the path. */
  lemma {:induction false} AtMissing(v: Value, path: seq<string>, k: nat)
    requires k < |path|
    requires var w := At(v, path[..k]); !(w.Object? && path[k] in w.members)
    ensures At(v, path) == Null
  {
    assert path == path[..k] + ([path[k]] + path[k + 1..]);
    AtConcat(v, path[..k], [path[k]] + path[k + 1..]);
    AtConcat(At(v, path[..k]), [path[k]], path[k + 1..]);
    assert At(At(v, path[..k]), [path[k]]) == Member(At(v, path[..k]), path[k]);
    AtNull(path[k + 1..]);
  }

  /** `v.as_str()`. */
  function AsStr(v: Value): (r: Option<string>)
    ensures r.Some? <==> v.Str?
    ensures r.Some? ==> r.value == v.s
  {
    if v.Str? then Some(v.s) else None
  }

  /** `v.as_i64()`: integers that fit in `i64`; floats, larger integers and non-numbers give `None`. */
  function AsI64(v: Value): (r: Option<i64>)
    ensures r.Some? <==> v.Int? && InRange(v.n)
    ensures r.Some? ==> r.value == v.n
  {
    if v.Int? && InRange(v.n) then Some(v.n) else None
  }
}
