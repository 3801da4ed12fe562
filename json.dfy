/**
 * Decoded JSON, as Python's `json.loads` hands it back (dict, list, str,
 * int, float, bool, None), and Python's `key in value` test on such a value.
 */
module JsonValue {
  import opened Wrappers

  datatype Json =
    | Null
    | Bool(b: bool)
    | Int(i: int)
    | Float(x: real)
    | Str(s: string)
    | Array(items: seq<Json>)
    | Object(fields: map<string, Json>)

  /** Python's name for the type of the value, as it appears in a TypeError message. */
  function TypeName(v: Json): string {
    match v
    case Null => "NoneType"
    case Bool(_) => "bool"
    case Int(_) => "int"
    case Float(_) => "float"
    case Str(_) => "str"
    case Array(_) => "list"
    case Object(_) => "dict"
  }

  /** `needle` occurs as a contiguous piece of `hay` (Python's `needle in hay` on two strings). */
  predicate IsSubstring(needle: string, hay: string) {
    needle <= hay || (hay != [] && IsSubstring(needle, hay[1..]))
  }

  /** `needle` is the slice of `hay` that starts at position `i`. */
  predicate OccursAt(needle: string, hay: string, i: int) {
    0 <= i && i + |needle| <= |hay| && hay[i..i + |needle|] == needle
  }

  /** `needle in hay` holds exactly when `needle` is the slice of `hay` at some position. */
  lemma {:induction false} SubstringAt(needle: string, hay: string)
    ensures IsSubstring(needle, hay) <==> exists i :: OccursAt(needle, hay, i)
    decreases |hay|
  {
    if needle <= hay {
      assert OccursAt(needle, hay, 0);
    } else if hay != [] {
      var tail := hay[1..];
      SubstringAt(needle, tail);
      if i :| OccursAt(needle, hay, i) {
        assert !OccursAt(needle, hay, 0);
        OccursShift(needle, hay, i);
      }
      if j :| OccursAt(needle, tail, j) {
        OccursShift(needle, hay, j + 1);
      }
    }
  }

  /** An occurrence past the first position is an occurrence in the rest of the text. */
  lemma {:induction false} OccursShift(needle: string, hay: string, i: int)
    requires hay != [] && 1 <= i
    ensures OccursAt(needle, hay, i) <==> OccursAt(needle, hay[1..], i - 1)
  {
    if i + |needle| <= |hay| {
      var shifted, slice := hay[1..][i - 1..i - 1 + |needle|], hay[i..i + |needle|];
      assert |shifted| == |slice|;
      assert forall k :: 0 <= k < |slice| ==> shifted[k] == slice[k];
    }
  }

  /** Python's `key in value`: a key test on a dict, an element test on a list,
      a substring test on a str, and a TypeError on every other value. */
  function Contains(value: Json, key: string): (r: Result<bool, string>)
    ensures r.Err? <==> (value.Null? || value.Bool? || value.Int? || value.Float?)
    ensures value.Object? ==> r == Ok(key in value.fields)
    ensures value.Array? ==> r == Ok(Str(key) in value.items)
    ensures value.Str? ==> (r == Ok(true) <==> exists i :: OccursAt(key, value.s, i))
  {
    match value
    case Object(fields) => Ok(key in fields)
    case Array(items) => Ok(Str(key) in items)
    case Str(s) =>
      SubstringAt(key, s);
      Ok(IsSubstring(key, s))
    case _ => Err("argument of type '" + TypeName(value) + "' is not iterable")
  }
}
