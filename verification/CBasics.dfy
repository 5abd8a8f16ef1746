/** What the modelled C code shares: 32-bit arithmetic, result codes, C strings, and the lower-case table. */
module CBasics {
  const U32: nat := 0x1_0000_0000
  const OK: nat := 0         // SQLITE_OK
  const NOMEM: nat := 7      // SQLITE_NOMEM

  datatype Option<T> = None | Some(value: T)

  /** The C string ends in NUL. */
  function At(s: string, i: nat): char {
    if i < |s| then s[i] else '\0'
  }

  /** sqlite3UpperToLower */
  function ToLower(c: char): char {
    if 'A' <= c <= 'Z' then (c as int + 32) as char else c
  }

  function Lower(s: string): (r: string)
    ensures |r| == |s| && forall i :: 0 <= i < |s| ==> r[i] == ToLower(s[i])
  {
    seq(|s|, i requires 0 <= i < |s| => ToLower(s[i]))
  }

  const UPPER: string := "ABCDEFGHIJKLMNOPQRSTUVWXYZ"
  const LOWER: string := "abcdefghijklmnopqrstuvwxyz"

  /** The two characters are the upper and the lower case of one of the 26 letters. */
  ghost predicate CaseOf(u: char, l: char) {
    exists k :: 0 <= k < |UPPER| && UPPER[k] == u && LOWER[k] == l
  }

  /** The strings differ in nothing but the case of letters. */
  ghost predicate SameButCase(a: string, b: string) {
    |a| == |b| && forall i :: 0 <= i < |a| ==> a[i] == b[i] || CaseOf(a[i], b[i]) || CaseOf(b[i], a[i])
  }

  lemma Letter(k: nat)
    requires k < |UPPER|
    ensures |LOWER| == |UPPER| == 26 && UPPER[k] as int == 65 + k && LOWER[k] as int == 97 + k
  {
  }

  lemma CaseExactly(c: char, d: char)
    ensures ToLower(c) == ToLower(d) <==> c == d || CaseOf(c, d) || CaseOf(d, c)
  {
    hide CaseOf;
    CaseDistance(c, d);
    CaseDistance(d, c);
  }

  lemma CaseDistance(u: char, l: char)
    ensures CaseOf(u, l) <==> 'A' <= u <= 'Z' && l as int == u as int + 32
  {
    if k :| 0 <= k < |UPPER| && UPPER[k] == u && LOWER[k] == l { Letter(k); }
    if 'A' <= u <= 'Z' { Letter(u as int - 65); }
  }

  /** Two strings have the same lower-case form exactly if they differ in nothing but the case of the 26 letters. */
  lemma LowerExactly(a: string, b: string)
    ensures Lower(a) == Lower(b) <==> SameButCase(a, b)
  {
    forall c, d { CaseExactly(c, d); }
    hide ToLower, CaseOf;
    assert Lower(a) == Lower(b) ==> forall i :: 0 <= i < |a| ==> Lower(a)[i] == Lower(b)[i];
  }

  /** malloc: any call may fail; the count of failures is kept for the specifications. */
  class Allocator {
    var failures: nat

    constructor ()
      ensures failures == 0
    {
      failures := 0;
    }

    method Malloc() returns (ok: bool)
      modifies this
      ensures failures == old(failures) + if ok then 0 else 1
    {
      ok := *;
      if !ok { failures := failures + 1; }
    }
  }
}
