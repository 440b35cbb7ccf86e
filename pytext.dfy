/**
 * The few pieces of Python built-in behaviour the jobs store relies on:
 * `str.isalpha`, `str.upper`, and how a list index (possibly negative)
 * is resolved by `lst[i]` and `del lst[i]`.
 */
module PyText {

  datatype Option<T> = None | Some(value: T)

  predicate IsLetter(c: char) {
    'a' <= c <= 'z' || 'A' <= c <= 'Z'
  }

  /** `str.isalpha()`: the string is non-empty and every character is a letter. */
  predicate IsAlpha(s: string) {
    |s| > 0 && forall i :: 0 <= i < |s| ==> IsLetter(s[i])
  }

  function UpperChar(c: char): char {
    if 'a' <= c <= 'z' then (c as int - 32) as char else c
  }

  predicate IsUpper(s: string) {
    forall i :: 0 <= i < |s| ==> !('a' <= s[i] <= 'z')
  }

  /** `str.upper()`: every lower-case letter mapped to its capital, all else kept. */
  function Upper(s: string): (r: string)
    ensures |r| == |s|
    ensures forall i :: 0 <= i < |s| ==> r[i] == UpperChar(s[i])
    ensures IsUpper(r)
    ensures IsAlpha(s) ==> IsAlpha(r)
  {
    if s == [] then [] else [UpperChar(s[0])] + Upper(s[1..])
  }

  /** Upper-casing twice is upper-casing once, so a stored name is its own key. */
  lemma UpperIdempotent(s: string)
    ensures Upper(Upper(s)) == Upper(s)
  {
  }

  /**
   * Python's resolution of index `i` into a list of length `len`:
   * a negative index counts from the end; None stands for IndexError.
   */
  function PyIndex(i: int, len: nat): (r: Option<nat>)
    ensures r.Some? <==> -(len as int) <= i < len
    ensures r.Some? ==> r.value < len && (r.value == i || r.value == len + i)
  {
    if 0 <= i < len then Some(i)
    else if -(len as int) <= i < 0 then Some(len + i)
    else None
  }

  /** The list with position `k` taken out, as `del lst[k]` leaves it. */
  function RemoveAt<T>(s: seq<T>, k: nat): (r: seq<T>)
    requires k < |s|
    ensures |r| == |s| - 1
    ensures forall i :: 0 <= i < k ==> r[i] == s[i]
    ensures forall i :: k <= i < |r| ==> r[i] == s[i + 1]
    ensures multiset(r) + multiset{s[k]} == multiset(s)
  {
    assert s == s[..k] + [s[k]] + s[k + 1..];
    s[..k] + s[k + 1..]
  }
}
