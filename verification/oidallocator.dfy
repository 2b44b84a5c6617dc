/**
 * `OracleOIDAllocator.set_min_oid` (src/relstorage/adapters/oracle/oidallocator.py):
 * OIDs are handed out in blocks of 16, one block per value of the sequence
 * `zoid_seq`, so the minimum OID becomes a minimum sequence value.  Oracle can
 * only move a sequence by altering its increment, which the allocator does
 * on a second connection.
 */
module OracleOids {
  import opened Strings

  /** OIDs per sequence value. */
  const BlockSize: int := 16

  /**
   * `zoid_seq` after at least one value has been drawn: `nextval` yields
   * `last + increment` and remembers it.
   */
  datatype Sequence = Sequence(last: int, increment: int)

  /** `SELECT zoid_seq.nextval FROM DUAL`: the value drawn and the advanced sequence. */
  function NextVal(s: Sequence): (r: (int, Sequence))
    ensures r.1.increment == s.increment && r.1.last == r.0
    ensures r.0 - s.last == s.increment
  {
    var v := s.last + s.increment;
    (v, s.(last := v))
  }

  /** `ALTER SEQUENCE zoid_seq INCREMENT BY k` */
  function AlterIncrement(s: Sequence, k: int): (r: Sequence)
    ensures r.last == s.last && r.increment == k
  {
    s.(increment := k)
  }

  /** The sequence value that covers `oidInt`: `(oid_int + 15) // 16`. */
  function BlockOf(oidInt: int): (n: int)
    ensures BlockSize * (n - 1) < oidInt <= BlockSize * n
  {
    (oidInt + 15) / BlockSize
  }

  /** What one call does: the value the main cursor drew, the statements issued, and the sequence after. */
  datatype Outcome = Outcome(fetched: int, statements: seq<string>, after: Sequence)

  const SelectNext: string := "SELECT zoid_seq.nextval FROM DUAL"

  function AlterText(k: nat): string
  {
    "ALTER SEQUENCE zoid_seq INCREMENT BY " + NatToString(k)
  }

  /**
   * `set_min_oid(cursor, oid_int)`: draw one value; when it is below the
   * target block, raise the increment by the shortfall, draw once more on the
   * second connection and put the increment back to 1.
   */
  function SetMinOid(s: Sequence, oidInt: int): (r: Outcome)
    ensures r.fetched == s.last + s.increment
    ensures r.after.last >= BlockOf(oidInt)
    ensures r.fetched >= BlockOf(oidInt) ==>
              r.after == Sequence(r.fetched, s.increment) && r.statements == [SelectNext]
    ensures r.fetched < BlockOf(oidInt) ==>
              && r.after == Sequence(BlockOf(oidInt), 1)
              && |r.statements| == 4
              && r.statements[1] == AlterText(BlockOf(oidInt) - r.fetched)
              && r.statements[3] == AlterText(1)
  {
    var n := BlockOf(oidInt);
    var (nextN, s1) := NextVal(s);
    if nextN < n then
      var diff := n - nextN;
      var (_, s2) := NextVal(AlterIncrement(s1, diff));
      Outcome(nextN, [SelectNext, AlterText(diff), SelectNext, AlterText(1)], AlterIncrement(s2, 1))
    else
      Outcome(nextN, [SelectNext], s1)
  }

  /** The increment written into the `ALTER` statement reads back as the shortfall. */
  lemma AlterTextRoundTrip(k: nat)
    ensures |AlterText(k)| > 37 && AlterText(k)[..37] == "ALTER SEQUENCE zoid_seq INCREMENT BY "
    ensures forall i :: 37 <= i < |AlterText(k)| ==> IsDigit(AlterText(k)[i])
    ensures DecimalValue(AlterText(k)[37..]) == k
  {
    var t := AlterText(k);
    assert t[37..] == NatToString(k);
    DecimalRoundTrip(k);
  }

  /**
   * With the usual increment of 1, every later block lies past the one that
   * holds `oidInt`, and a second call for the same OID alters nothing.
   */
  lemma SetMinOidSettles(s: Sequence, oidInt: int)
    requires s.increment == 1
    ensures var r := SetMinOid(s, oidInt);
            && r.after.increment == 1
            && NextVal(r.after).0 > BlockOf(oidInt)
            && SetMinOid(r.after, oidInt).statements == [SelectNext]
            && SetMinOid(r.after, oidInt).after == NextVal(r.after).1
  {
  }

  /** The sequence never moves backwards under a non-negative increment. */
  lemma SetMinOidMonotone(s: Sequence, oidInt: int)
    requires s.increment >= 0
    ensures SetMinOid(s, oidInt).after.last >= s.last
  {
  }
}
