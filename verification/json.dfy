/** Parsed report values, with the shapes the report readers tell apart. */
module JsonValues {
  import opened Wrappers

  datatype Json =
    | JNull
    | JBool(truth: bool)
    | JNumber(number: real)
    | JString(text: string)
    | JArray(items: seq<Json>)
    | JObject(fields: map<string, Json>)

  /** Python's `float(value)` on the values it accepts without parsing text: numbers, and booleans as 1 and 0. */
  function AsFloat(j: Json): Option<real>
  {
    match j
      case JNumber(x) => Some(x)
      case JBool(b) => Some(if b then 1.0 else 0.0)
      case _ => None
  }

  /** `p` occurs in `s` starting at position `i`. */
  predicate OccursAt(p: string, s: string, i: int)
  {
    0 <= i <= |s| - |p| && s[i..i + |p|] == p
  }

  /** Python's `p in s` on two strings, by trying each start position in turn. */
  predicate IsInfix(p: string, s: string)
    decreases |s|
  {
    if |p| > |s| then false
    else s[..|p|] == p || IsInfix(p, s[1..])
  }

  /** `IsInfix` holds exactly when `p` occurs somewhere in `s`. */
  lemma {:induction false} IsInfixOccurs(p: string, s: string)
    decreases |s|
    ensures IsInfix(p, s) <==> exists i :: OccursAt(p, s, i)
  {
    if |p| <= |s| {
      if s[..|p|] == p {
        assert OccursAt(p, s, 0);
      } else {
        IsInfixOccurs(p, s[1..]);
        if IsInfix(p, s) {
          var i :| OccursAt(p, s[1..], i);
          assert s[1..][i..i + |p|] == s[i + 1..i + 1 + |p|];
          assert OccursAt(p, s, i + 1);
        } else {
          forall i | 0 <= i <= |s| - |p|
            ensures !OccursAt(p, s, i)
          {
            if i > 0 {
              assert s[1..][i - 1..i - 1 + |p|] == s[i..i + |p|];
              assert !OccursAt(p, s[1..], i - 1);
            } else {
              assert s[0..|p|] == s[..|p|];
            }
          }
        }
      }
    }
  }

  /** Python's `name in value` on a parsed value: a key of an object, an element of an array equal to the
      string, a substring of a string. None where Python raises `TypeError`: numbers, booleans and null. */
  function Contains(value: Json, name: string): (r: Option<bool>)
    ensures value.JObject? ==> r == Some(name in value.fields)
    ensures value.JArray? ==> r == Some(exists k :: 0 <= k < |value.items| && value.items[k] == JString(name))
    ensures value.JString? ==> r == Some(exists i :: OccursAt(name, value.text, i))
    ensures r.None? <==> value.JNull? || value.JBool? || value.JNumber?
  {
    match value
      case JObject(fields) => Some(name in fields)
      case JArray(items) => Some(JString(name) in items)
      case JString(text) =>
        IsInfixOccurs(name, text);
        Some(IsInfix(name, text))
      case _ => None
  }
}
