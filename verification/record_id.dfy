/** `RecordId`: a (page id, tuple number) pair whose `equals` compares `hashCode()` values,
    and whose `hashCode()` parses the decimal text of the page id's hash followed by the
    decimal text of the tuple number's string hash. `HeapPageId.hashCode()` is not part of
    this model; every member takes it as the parameter `pageHash`. */
module RecordIds {
  import opened Wrappers
  import opened JavaInt
  import opened Pages

  datatype RecordId = RecordId(pageId: HeapPageId, tupleNumber: Int32)
  {
    /** `getPageId()`: the page id this record id was built from. */
    function GetPageId(): (p: HeapPageId)
      ensures this == RecordId(p, tupleNumber)
    {
      pageId
    }

    /** `getTupleNumber()`: the tuple number this record id was built from. */
    function GetTupleNumber(): (t: Int32)
      ensures this == RecordId(pageId, t)
    {
      tupleNumber
    }
  }

  /** The argument of `equals(Object o)`: another record id, or any other object. */
  datatype JavaObject = RecordIdObject(rid: RecordId) | OtherObject

  /** `new RecordId(pid, tupleno)`: the getters give back exactly the two arguments. */
  function NewRecordId(pid: HeapPageId, tupleno: Int32): (r: RecordId)
    ensures r.GetPageId() == pid && r.GetTupleNumber() == tupleno
  {
    RecordId(pid, tupleno)
  }

  /** Nothing but the two getters' values is stored: they determine the record id. */
  lemma GettersDetermineRecordId(a: RecordId, b: RecordId)
    ensures a == b <==> a.GetPageId() == b.GetPageId() && a.GetTupleNumber() == b.GetTupleNumber()
  {
  }

  /** `Integer.toString(tupleNumber).hashCode()` */
  function TupleNumberHash(tupleNumber: Int32): Int32
  {
    JavaStringHash(IntToString(tupleNumber))
  }

  /** The text `hashCode()` hands to `Integer.parseInt`. */
  function HashText(pageHash: HeapPageId -> Int32, r: RecordId): string
  {
    IntToString(pageHash(r.pageId)) + IntToString(TupleNumberHash(r.tupleNumber))
  }

  /** `hashCode()`: the parsed concatenation, or the `NumberFormatException` `parseInt` throws,
      which it always does when the tuple number's string hash is negative. */
  function HashCode(pageHash: HeapPageId -> Int32, r: RecordId): (res: Result<Int32, JavaException>)
    ensures res.Failure? ==> res.error == NumberFormatException(HashText(pageHash, r))
    ensures TupleNumberHash(r.tupleNumber) < 0 ==> res.Failure?
  {
    MinusInsideFails(pageHash(r.pageId), TupleNumberHash(r.tupleNumber));
    var text := HashText(pageHash, r);
    match ParseInt(text)
    case Some(v) => Success(v)
    case None => Failure(NumberFormatException(text))
  }

  /** The number the concatenated decimal text denotes, worked out arithmetically: the page
      hash's digits shifted left by the tuple hash's digit count, the sign of the page hash
      applying to the whole. */
  function Juxtapose(pageHash: Int32, tupleHash: nat): int
  {
    var magnitude := if pageHash < 0 then -(pageHash as int) else pageHash as int;
    var joined := magnitude * Pow10(DecimalLength(tupleHash)) + tupleHash;
    if pageHash < 0 then -joined else joined
  }

  /** A negative second component puts a '-' after the first character: `parseInt` rejects it. */
  lemma MinusInsideFails(ph: Int32, th: Int32)
    ensures th < 0 ==> ParseInt(IntToString(ph) + IntToString(th)).None?
  {
    if th < 0 {
      var head := IntToString(ph);
      assert (head + IntToString(th))[|head|] == '-';
      ParseRejectsInnerMinus(head + IntToString(th), |head|);
    }
  }

  /** The digits of `m` followed by the digits of `th` read as `m` shifted left past `th`. */
  lemma JoinedDigitsValue(m: nat, th: nat)
    ensures AllDigits(NatToDecimal(m) + NatToDecimal(th))
    ensures DecimalValue(NatToDecimal(m) + NatToDecimal(th)) == m * Pow10(DecimalLength(th)) + th
  {
    DecimalValueAppend(NatToDecimal(m), NatToDecimal(th));
    DecimalRoundTrip(m);
    DecimalRoundTrip(th);
  }

  /** A negative page hash with a non-negative tuple hash: the text is '-' then both digit runs. */
  lemma NegativeHeadParse(ph: Int32, th: nat)
    requires ph < 0 && InInt32(th)
    ensures ParseInt(IntToString(ph) + IntToString(th)) ==
      if InInt32(Juxtapose(ph, th)) then Some(Juxtapose(ph, th)) else None
  {
    var m: nat := -(ph as int);
    var digits := NatToDecimal(m) + NatToDecimal(th);
    assert IntToString(ph) + IntToString(th) == "-" + digits;
    SignedDigitsParse(m, th);
  }

  /** A minus sign before the two digit runs parses to the negated juxtaposition when it fits. */
  lemma SignedDigitsParse(m: nat, th: nat)
    ensures var v := -(m * Pow10(DecimalLength(th)) + th);
      ParseInt("-" + (NatToDecimal(m) + NatToDecimal(th))) == if InInt32(v) then Some(v) else None
  {
    var digits := NatToDecimal(m) + NatToDecimal(th);
    JoinedDigitsValue(m, th);
    ParseNegative(digits);
    assert -(DecimalValue(digits) as int) == -(m * Pow10(DecimalLength(th)) + th);
  }

  /** Two non-negative hashes: the text is both digit runs, read as the juxtaposition when it fits. */
  lemma NonNegativeHeadParse(ph: Int32, th: nat)
    requires ph >= 0 && InInt32(th)
    ensures ParseInt(IntToString(ph) + IntToString(th)) ==
      if InInt32(Juxtapose(ph, th)) then Some(Juxtapose(ph, th)) else None
  {
    var digits := NatToDecimal(ph) + NatToDecimal(th);
    JoinedDigitsValue(ph, th);
    assert IntToString(ph) + IntToString(th) == digits;
    ParseUnsigned(digits);
  }

  /** `hashCode()` fails exactly when the tuple hash is negative (a '-' lands inside the text)
      or when the juxtaposed number does not fit an `int`; otherwise it is that number. */
  lemma HashCodeSpec(pageHash: HeapPageId -> Int32, r: RecordId)
    ensures var ph := pageHash(r.pageId);
      var th := TupleNumberHash(r.tupleNumber);
      HashCode(pageHash, r).Success? <==> th >= 0 && InInt32(Juxtapose(ph, th))
    ensures var ph := pageHash(r.pageId);
      var th := TupleNumberHash(r.tupleNumber);
      HashCode(pageHash, r).Success? ==> HashCode(pageHash, r).value == Juxtapose(ph, th)
  {
    var ph := pageHash(r.pageId);
    var th := TupleNumberHash(r.tupleNumber);
    assert HashText(pageHash, r) == IntToString(ph) + IntToString(th);
    if th < 0 {
      MinusInsideFails(ph, th);
    } else if ph < 0 {
      NegativeHeadParse(ph, th);
    } else {
      NonNegativeHeadParse(ph, th);
    }
  }

  /** `hashCode()` depends on the record id only through the two component hashes. */
  lemma HashCodeDependsOnComponentHashes(pageHash: HeapPageId -> Int32, a: RecordId, b: RecordId)
    requires pageHash(a.pageId) == pageHash(b.pageId)
    requires TupleNumberHash(a.tupleNumber) == TupleNumberHash(b.tupleNumber)
    ensures HashCode(pageHash, a).Success? == HashCode(pageHash, b).Success?
    ensures HashCode(pageHash, a).Success? ==> HashCode(pageHash, a).value == HashCode(pageHash, b).value
  {
    HashCodeSpec(pageHash, a);
    HashCodeSpec(pageHash, b);
  }

  /** `equals(o)`: false for anything that is not a record id; otherwise the argument's
      `hashCode()`, then this one's, each of which can throw, and true iff they are equal. */
  function Equals(pageHash: HeapPageId -> Int32, self: RecordId, o: JavaObject): (r: Result<bool, JavaException>)
    ensures o.OtherObject? ==> r == Success(false)
    ensures o.RecordIdObject? ==>
      (r.Failure? <==> HashCode(pageHash, self).Failure? || HashCode(pageHash, o.rid).Failure?)
    ensures o.RecordIdObject? ==>
      (r == Success(true) <==>
        && HashCode(pageHash, self).Success?
        && HashCode(pageHash, o.rid).Success?
        && HashCode(pageHash, self).value == HashCode(pageHash, o.rid).value)
  {
    match o
    case OtherObject => Success(false)
    case RecordIdObject(that) =>
      match HashCode(pageHash, that)
      case Failure(e) => Failure(e)
      case Success(thatHash) =>
        match HashCode(pageHash, self)
        case Failure(e) => Failure(e)
        case Success(thisHash) => Success(thatHash == thisHash)
  }

  /** Where `hashCode()` is defined, `equals` is reflexive, symmetric and transitive. */
  lemma EqualsIsEquivalence(pageHash: HeapPageId -> Int32, a: RecordId, b: RecordId, c: RecordId)
    ensures HashCode(pageHash, a).Success? ==> Equals(pageHash, a, RecordIdObject(a)) == Success(true)
    ensures Equals(pageHash, a, RecordIdObject(b)).Success? <==> Equals(pageHash, b, RecordIdObject(a)).Success?
    ensures Equals(pageHash, a, RecordIdObject(b)) == Success(true) ==>
      Equals(pageHash, b, RecordIdObject(a)) == Success(true)
    ensures Equals(pageHash, a, RecordIdObject(b)) == Success(true) && Equals(pageHash, b, RecordIdObject(c)) == Success(true) ==>
      Equals(pageHash, a, RecordIdObject(c)) == Success(true)
  {
  }

  /** Record ids that compare equal have equal hash codes, as the `hashCode` contract asks. */
  lemma EqualsImpliesEqualHashCode(pageHash: HeapPageId -> Int32, a: RecordId, b: RecordId)
    ensures Equals(pageHash, a, RecordIdObject(b)) == Success(true) ==> HashCode(pageHash, a) == HashCode(pageHash, b)
  {
  }

  // ---------------------------------------------------------------- as written: counterexamples

  lemma SmallTupleHashes()
    ensures TupleNumberHash(0) == 48
    ensures TupleNumberHash(9) == 57
    ensures TupleNumberHash(74) == 1757
  {
    assert IntToString(0) == [] + ['0'];
    assert IntToString(9) == [] + ['9'];
    assert IntToString(74) == ([] + ['7']) + ['4'];
    StringHashAppend([], '0');
    StringHashAppend([], '9');
    StringHashAppend([], '7');
    StringHashAppend([] + ['7'], '4');
  }

  lemma DecimalOf1700000()
    ensures IntToString(1_700_000) == "1700000"
  {
    assert NatToDecimal(1) == "1";
    assert NatToDecimal(17) == "17";
    assert NatToDecimal(170) == "170";
    assert NatToDecimal(1700) == "1700";
    assert NatToDecimal(17000) == "17000";
    assert NatToDecimal(170000) == "170000";
  }

  /** The exact polynomial of "1700000", one character at a time. */
  lemma PolynomialOf1700000()
    ensures PolynomialHash("1700000") == 45_108_090_314
  {
    var s1 := [] + ['1'];
    var s2 := s1 + ['7'];
    var s3 := s2 + ['0'];
    var s4 := s3 + ['0'];
    var s5 := s4 + ['0'];
    var s6 := s5 + ['0'];
    var s7 := s6 + ['0'];
    assert s7 == "1700000";
    PolynomialAppend([], '1');
    PolynomialAppend(s1, '7');
    PolynomialAppend(s2, '0');
    PolynomialAppend(s3, '0');
    assert PolynomialHash(s4) == 1_514_150;
    PolynomialAppend(s4, '0');
    PolynomialAppend(s5, '0');
    PolynomialAppend(s6, '0');
  }

  /** `"1700000".hashCode()` wraps around to a negative `int`. */
  lemma NegativeTupleHash()
    ensures TupleNumberHash(1_700_000) == -2_136_549_942
  {
    DecimalOf1700000();
    PolynomialOf1700000();
    assert 45_108_090_314 == -2_136_549_942 + 11 * TwoTo32;
    WrapShift(-2_136_549_942, 11);
  }

  /** Equality is not structural: tuple 74 ("74".hashCode() is 1757) on a page hashing to 1 and
      tuple 9 ("9".hashCode() is 57) on a page hashing to 117 both give the text "11757". */
  lemma EqualsNotStructural(pageHash: HeapPageId -> Int32, p: HeapPageId, q: HeapPageId)
    requires pageHash(p) == 1 && pageHash(q) == 117
    ensures RecordId(p, 74) != RecordId(q, 9)
    ensures Equals(pageHash, RecordId(p, 74), RecordIdObject(RecordId(q, 9))) == Success(true)
  {
    SmallTupleHashes();
    assert DecimalLength(1757) == 4 && DecimalLength(57) == 2;
    assert Juxtapose(1, 1757) == 11757 == Juxtapose(117, 57);
    HashCodeSpec(pageHash, RecordId(p, 74));
    HashCodeSpec(pageHash, RecordId(q, 9));
  }

  /** Every record id with tuple number 1700000 throws from `hashCode()`, so `equals` throws
      even when it compares the record id with itself. */
  lemma HashCodeThrowsOnNegativeTupleHash(pageHash: HeapPageId -> Int32, p: HeapPageId)
    ensures HashCode(pageHash, RecordId(p, 1_700_000)).Failure?
    ensures Equals(pageHash, RecordId(p, 1_700_000), RecordIdObject(RecordId(p, 1_700_000))).Failure?
  {
    NegativeTupleHash();
    HashCodeSpec(pageHash, RecordId(p, 1_700_000));
  }

  /** A page hash of `Integer.MAX_VALUE` overflows the parse even for tuple 0 ("0".hashCode() is 48). */
  lemma HashCodeThrowsOnOverflow(pageHash: HeapPageId -> Int32, p: HeapPageId)
    requires pageHash(p) == IntMax
    ensures HashCode(pageHash, RecordId(p, 0)).Failure?
  {
    SmallTupleHashes();
    assert DecimalLength(48) == 2;
    HashCodeSpec(pageHash, RecordId(p, 0));
  }

  /** A page hash of nine or more digits overflows the parse for every tuple number whose string
      hash has at least two digits, which includes every single-digit tuple number (hashes 48 to 57). */
  lemma HashCodeThrowsOnLongPageHash(pageHash: HeapPageId -> Int32, r: RecordId)
    requires pageHash(r.pageId) <= -100_000_000 || pageHash(r.pageId) >= 100_000_000
    requires TupleNumberHash(r.tupleNumber) >= 10
    ensures HashCode(pageHash, r).Failure?
  {
    JuxtaposeOutOfRange(pageHash(r.pageId), TupleNumberHash(r.tupleNumber));
    HashCodeSpec(pageHash, r);
  }

  /** Nine or more digits followed by two or more digits spell a number outside the `int` range. */
  lemma JuxtaposeOutOfRange(ph: Int32, th: nat)
    requires ph <= -100_000_000 || ph >= 100_000_000
    requires th >= 10
    ensures !InInt32(Juxtapose(ph, th))
  {
    var magnitude := if ph < 0 then -(ph as int) else ph as int;
    assert DecimalLength(th) >= 2;
    Pow10AtLeast100(DecimalLength(th));
    MulAtLeast(magnitude, 100_000_000, Pow10(DecimalLength(th)), 100);
  }

  lemma {:induction false} Pow10AtLeast100(k: nat)
    requires k >= 2
    ensures Pow10(k) >= 100
  {
    if k > 2 {
      Pow10AtLeast100(k - 1);
    }
  }

  lemma MulAtLeast(a: nat, b: nat, c: nat, d: nat)
    requires a >= b && c >= d
    ensures a * c >= b * d
  {
  }

  // ---------------------------------------------------------------- corrected

  /** Equality as documented: the same page and the same tuple number. */
  function StructuralEquals(self: RecordId, o: JavaObject): bool
  {
    o.RecordIdObject? && o.rid.pageId == self.pageId && o.rid.tupleNumber == self.tupleNumber
  }

  /** A total pair hash, `31 * pageHash + tupleNumber` in `int` arithmetic. */
  function PairHash(pageHash: HeapPageId -> Int32, r: RecordId): Int32
  {
    Wrap32(31 * pageHash(r.pageId) + r.tupleNumber)
  }

  /** The corrected equality holds exactly between record ids with equal components, is an
      equivalence, never holds for other objects, and equal record ids hash alike. */
  lemma StructuralEqualsSpec(pageHash: HeapPageId -> Int32, a: RecordId, b: RecordId, c: RecordId)
    ensures StructuralEquals(a, OtherObject) == false
    ensures StructuralEquals(a, RecordIdObject(b)) <==> a == b
    ensures StructuralEquals(a, RecordIdObject(a))
    ensures StructuralEquals(a, RecordIdObject(b)) == StructuralEquals(b, RecordIdObject(a))
    ensures StructuralEquals(a, RecordIdObject(b)) && StructuralEquals(b, RecordIdObject(c)) ==>
      StructuralEquals(a, RecordIdObject(c))
    ensures StructuralEquals(a, RecordIdObject(b)) ==> PairHash(pageHash, a) == PairHash(pageHash, b)
  {
  }
}
