/** Bit arrays packed into bytes, as the flat bitmap and the reference array of the built-in test use them. */
module Bits {

  const SZELEM: nat := 8   // bits in one array element

  function Mask(k: nat): bv8
    requires k < SZELEM
  {
    (1 as bv8) << k
  }

  ghost predicate BitAt(s: seq<bv8>, k: nat) {
    k / SZELEM < |s| && s[k / SZELEM] & Mask(k % SZELEM) != 0
  }

  lemma OrBit(b: bv8, k: nat, j: nat)
    requires k < SZELEM && j < SZELEM
    ensures (b | Mask(k)) & Mask(j) != 0 <==> j == k || b & Mask(j) != 0
  {
    if k == 0 {} else if k == 1 {} else if k == 2 {} else if k == 3 {}
    else if k == 4 {} else if k == 5 {} else if k == 6 {} else {}
  }

  lemma AndNotBit(b: bv8, k: nat, j: nat)
    requires k < SZELEM && j < SZELEM
    ensures (b & !Mask(k)) & Mask(j) != 0 <==> j != k && b & Mask(j) != 0
  {
    if k == 0 {} else if k == 1 {} else if k == 2 {} else if k == 3 {}
    else if k == 4 {} else if k == 5 {} else if k == 6 {} else {}
  }

  method Test(a: array<bv8>, k: nat) returns (bit: bool)
    requires k < SZELEM * a.Length
    ensures bit <==> BitAt(a[..], k)
  {
    bit := a[k / SZELEM] & Mask(k % SZELEM) != 0;
  }

  lemma SetEffect(s: seq<bv8>, k: nat, j: nat)
    requires k / SZELEM < |s|
    ensures BitAt(s[k / SZELEM := s[k / SZELEM] | Mask(k % SZELEM)], j) <==> j == k || BitAt(s, j)
  {
    hide Mask;
    if j / SZELEM == k / SZELEM {
      OrBit(s[k / SZELEM], k % SZELEM, j % SZELEM);
    }
  }

  lemma ClearEffect(s: seq<bv8>, k: nat, j: nat)
    requires k / SZELEM < |s|
    ensures BitAt(s[k / SZELEM := s[k / SZELEM] & !Mask(k % SZELEM)], j) <==> j != k && BitAt(s, j)
  {
    hide Mask;
    if j / SZELEM == k / SZELEM {
      AndNotBit(s[k / SZELEM], k % SZELEM, j % SZELEM);
    }
  }

  /** SETBIT, and the flat form of sqlite3BitvecSet. */
  method Set(a: array<bv8>, k: nat)
    requires k < SZELEM * a.Length
    modifies a
    ensures forall j: nat :: BitAt(a[..], j) <==> j == k || BitAt(old(a[..]), j)
  {
    hide Mask;
    ghost var s := a[..];
    a[k / SZELEM] := a[k / SZELEM] | Mask(k % SZELEM);
    assert a[..] == s[k / SZELEM := s[k / SZELEM] | Mask(k % SZELEM)];
    forall j: nat ensures BitAt(a[..], j) <==> j == k || BitAt(s, j) { SetEffect(s, k, j); }
  }

  /** CLEARBIT, and the flat form of sqlite3BitvecClear. */
  method Clear(a: array<bv8>, k: nat)
    requires k < SZELEM * a.Length
    modifies a
    ensures forall j: nat :: BitAt(a[..], j) <==> j != k && BitAt(old(a[..]), j)
  {
    hide Mask;
    ghost var s := a[..];
    a[k / SZELEM] := a[k / SZELEM] & !Mask(k % SZELEM);
    assert a[..] == s[k / SZELEM := s[k / SZELEM] & !Mask(k % SZELEM)];
    forall j: nat ensures BitAt(a[..], j) <==> j != k && BitAt(s, j) { ClearEffect(s, k, j); }
  }
}
