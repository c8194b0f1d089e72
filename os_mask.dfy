/** `getOSListByValue` (sqlite.go): decodes the OS bit mask that older rows
 *  kept in a single integer column into the list of OS labels.
 *
 *  Its labels, "Windows", "macOS" and "Linux", are not the values the front
 *  end stores in the link tables ("windows", "mac" and "linux", the
 *  constants of app.go); rows migrated through it would not match a filter
 *  built from those constants. */
module OsMask {

  /** The labels in the order of their bits: bit 0, bit 1, bit 2. */
  const Labels: seq<string> := ["Windows", "macOS", "Linux"]

  /** `v & (1 << k) != 0` for a two's-complement `int`: Dafny's `/` and `%`
   *  round towards minus infinity for a positive divisor, as an arithmetic
   *  shift does, so this also holds for negative values. */
  predicate Bit(v: int, k: nat)
  {
    (v / Pow2(k)) % 2 == 1
  }

  function Pow2(k: nat): (r: nat)
    ensures r > 0
  {
    if k == 0 then 1 else 2 * Pow2(k - 1)
  }

  /** The labels of bits k, k+1, ... 2 that are set, in bit order. */
  function Select(v: int, k: nat): seq<string>
    decreases 3 - k
  {
    if k >= 3 then [] else (if Bit(v, k) then [Labels[k]] else []) + Select(v, k + 1)
  }

  /** The decoded list: a reference definition walking the label table. */
  function LabelsOf(v: int): seq<string>
  {
    Select(v, 0)
  }

  /** The weight of one label; unknown labels weigh nothing. */
  function Weight(name: string): nat
  {
    if name == Labels[0] then 1 else if name == Labels[1] then 2 else if name == Labels[2] then 4 else 0
  }

  /** The mask a list of labels encodes: the inverse of the decoder. */
  function MaskOf(labels: seq<string>): nat
  {
    if |labels| == 0 then 0 else Weight(labels[0]) + MaskOf(labels[1..])
  }

  /** `getOSListByValue`: three independent bit tests, appending in order. */
  method GetOsListByValue(osValue: int) returns (osList: seq<string>)
    ensures osList == LabelsOf(osValue)
  {
    osList := [];
    if osValue % 2 != 0 {
      osList := osList + ["Windows"];
    }
    if (osValue / 2) % 2 != 0 {
      osList := osList + ["macOS"];
    }
    if (osValue / 4) % 2 != 0 {
      osList := osList + ["Linux"];
    }
  }

  /** A label is in the list exactly when its bit is set; the list holds
   *  nothing else, keeps the bit order, and so has at most three entries. */
  lemma LabelsOfMembership(v: int)
    ensures forall k :: 0 <= k < 3 ==> (Labels[k] in LabelsOf(v) <==> Bit(v, k))
    ensures forall l :: l in LabelsOf(v) ==> l in Labels
    ensures |LabelsOf(v)| <= 3
    ensures forall i, j :: 0 <= i < j < |LabelsOf(v)| ==> Weight(LabelsOf(v)[i]) < Weight(LabelsOf(v)[j])
  {
    assert Select(v, 3) == [];
    if Bit(v, 0) {
      if Bit(v, 1) {
        if Bit(v, 2) {
          assert LabelsOf(v) == ["Windows", "macOS", "Linux"];
        } else {
          assert LabelsOf(v) == ["Windows", "macOS"];
        }
      } else {
        if Bit(v, 2) {
          assert LabelsOf(v) == ["Windows", "Linux"];
        } else {
          assert LabelsOf(v) == ["Windows"];
        }
      }
    } else {
      if Bit(v, 1) {
        if Bit(v, 2) {
          assert LabelsOf(v) == ["macOS", "Linux"];
        } else {
          assert LabelsOf(v) == ["macOS"];
        }
      } else {
        if Bit(v, 2) {
          assert LabelsOf(v) == ["Linux"];
        } else {
          assert LabelsOf(v) == [];
        }
      }
    }
  }

  /** The bits above bit 2 do not matter. */
  lemma {:induction false} LowBits(v: int)
    ensures Bit(v, 0) == Bit(v % 8, 0)
    ensures Bit(v, 1) == Bit(v % 8, 1)
    ensures Bit(v, 2) == Bit(v % 8, 2)
  {
    assert Pow2(1) == 2 && Pow2(2) == 4;
    var q, r := v / 8, v % 8;
    assert v == 8 * q + r && 0 <= r < 8;
    DivideBelow(q, r, 2, 4);
    DivideBelow(q, r, 4, 2);
    assert v % 2 == r % 2;
    assert (4 * q + r / 2) % 2 == (r / 2) % 2;
    assert (2 * q + r / 4) % 2 == (r / 4) % 2;
  }

  /** Dividing `8q + r` by a power of two below 8 keeps `q` apart. */
  lemma DivideBelow(q: int, r: int, d: int, m: int)
    requires 0 <= r < 8 && d * m == 8 && (d == 2 || d == 4)
    ensures (8 * q + r) / d == m * q + r / d
  {
    var x := 8 * q + r;
    assert x == d * (m * q) + r;
    assert 0 <= r % d < d && r == d * (r / d) + r % d;
    assert x == d * (m * q + r / d) + r % d;
  }

  /** Encoding the decoded list gives back the low three bits. */
  lemma MaskOfLabelsOf(v: int)
    ensures MaskOf(LabelsOf(v)) == v % 8
  {
    LowBits(v);
    var r := v % 8;
    assert Pow2(1) == 2 && Pow2(2) == 4;
    forall k | 0 <= k < 3
      ensures MaskOf(Select(v, k)) == (if Bit(v, k) then Weight(Labels[k]) else 0) + MaskOf(Select(v, k + 1))
    {
      var head := if Bit(v, k) then [Labels[k]] else [];
      assert (head + Select(v, k + 1))[|head|..] == Select(v, k + 1);
    }
    assert r == 0 || r == 1 || r == 2 || r == 3 || r == 4 || r == 5 || r == 6 || r == 7;
  }

  /** Two masks decode to the same list exactly when their low three bits
   *  agree: every other bit is ignored, and these three are all told apart. */
  lemma SameLabels(v: int, w: int)
    ensures LabelsOf(v) == LabelsOf(w) <==> v % 8 == w % 8
  {
    MaskOfLabelsOf(v);
    MaskOfLabelsOf(w);
    if v % 8 == w % 8 {
      LowBits(v);
      LowBits(w);
      assert Bit(v, 0) == Bit(w, 0) && Bit(v, 1) == Bit(w, 1) && Bit(v, 2) == Bit(w, 2);
      assert Select(v, 3) == Select(w, 3);
      assert Select(v, 2) == Select(w, 2);
      assert Select(v, 1) == Select(w, 1);
      assert Select(v, 0) == Select(w, 0);
    }
  }
}
