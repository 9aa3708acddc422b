/** The checksum as the remainder of a polynomial division over the field of two elements, as section 8 of
    RFC 1952 and the ISO 3309 generator it refers to define it. */
module CrcRemainder {
  import opened Base
  import opened Crc

  // ----- Polynomials over two elements -----

  /** The exponents with coefficient one. */
  type Poly = set<nat>

  /** x^32 + x^26 + x^23 + x^22 + x^16 + x^12 + x^11 + x^10 + x^8 + x^7 + x^5 + x^4 + x^2 + x + 1 */
  const GENERATOR: Poly := {32, 26, 23, 22, 16, 12, 11, 10, 8, 7, 5, 4, 2, 1, 0}

  /** Coefficients add without carry. */
  function Add(p: Poly, q: Poly): (r: Poly)
    ensures forall e :: e in r <==> (e in p) != (e in q)
  {
    (p - q) + (q - p)
  }

  function Plus(e: nat, n: nat): nat {
    e + n
  }

  /** Times the n-th power of x. */
  function Shift(p: Poly, n: nat): (r: Poly)
    ensures forall e: nat {:trigger e in r} :: e in r <==> e >= n && e - n in p
  {
    var r := set e | e in p :: Plus(e, n);
    assert forall e: nat {:trigger e in r} :: e >= n && e - n in p ==> Plus(e - n, n) in r;
    r
  }

  /** The generator times a power of x. */
  function Term(n: nat): Poly {
    Shift(GENERATOR, n)
  }

  /** The generator times the sum of the given powers of x. */
  function Multiple(powers: seq<nat>): Poly
    decreases |powers|
  {
    if powers == [] then {} else Add(Term(powers[0]), Multiple(powers[1..]))
  }

  /** The two differ by a multiple of the generator. */
  ghost predicate Congruent(p: Poly, q: Poly) {
    exists powers: seq<nat> :: Add(p, q) == Multiple(powers)
  }

  ghost predicate Degree(p: Poly, bound: nat) {
    forall e :: e in p ==> e < bound
  }

  lemma {:induction false} MultipleConcat(a: seq<nat>, b: seq<nat>)
    ensures Multiple(a + b) == Add(Multiple(a), Multiple(b))
    decreases |a|
  {
    if a == [] {
      assert a + b == b;
    } else {
      assert (a + b)[1..] == a[1..] + b;
      MultipleConcat(a[1..], b);
    }
  }

  function Higher(powers: seq<nat>, n: nat): seq<nat>
    decreases |powers|
  {
    if powers == [] then [] else [powers[0] + n] + Higher(powers[1..], n)
  }

  lemma {:induction false} MultipleShift(powers: seq<nat>, n: nat)
    ensures Shift(Multiple(powers), n) == Multiple(Higher(powers, n))
    decreases |powers|
  {
    hide Add, Shift, Term;
    NothingShifted(n);
    if powers != [] {
      MultipleShift(powers[1..], n);
      assert Higher(powers, n)[1..] == Higher(powers[1..], n);
      TermShift(powers[0], n);
      ShiftAdd(Term(powers[0]), Multiple(powers[1..]), n);
    }
  }

  lemma NothingShifted(n: nat)
    ensures Shift({}, n) == {}
  {
    assert forall e: nat :: e !in Shift({}, n);
  }

  lemma TermShift(p: nat, n: nat)
    ensures Shift(Term(p), n) == Term(p + n)
  {
    ShiftTwice(GENERATOR, p, n);
  }

  lemma ShiftAdd(p: Poly, q: Poly, n: nat)
    ensures Shift(Add(p, q), n) == Add(Shift(p, n), Shift(q, n))
  {
  }

  lemma ShiftTwice(p: Poly, m: nat, n: nat)
    ensures Shift(Shift(p, m), n) == Shift(p, m + n)
  {
  }

  lemma Reflexive(p: Poly)
    ensures Congruent(p, p)
  {
    assert Add(p, p) == Multiple([]);
  }

  lemma Symmetric(p: Poly, q: Poly)
    requires Congruent(p, q)
    ensures Congruent(q, p)
  {
    hide Multiple;
    var powers: seq<nat> :| Add(p, q) == Multiple(powers);
    assert Add(q, p) == Add(p, q);
  }

  lemma Transitive(p: Poly, q: Poly, r: Poly)
    requires Congruent(p, q) && Congruent(q, r)
    ensures Congruent(p, r)
  {
    hide Multiple, Add, Shift;
    var a: seq<nat> :| Add(p, q) == Multiple(a);
    var b: seq<nat> :| Add(q, r) == Multiple(b);
    MultipleConcat(a, b);
    assert Add(p, r) == Add(Add(p, q), Add(q, r));
  }

  lemma CongruentShift(p: Poly, q: Poly, n: nat)
    requires Congruent(p, q)
    ensures Congruent(Shift(p, n), Shift(q, n))
  {
    hide Multiple;
    var a: seq<nat> :| Add(p, q) == Multiple(a);
    ShiftAdd(p, q, n);
    MultipleShift(a, n);
  }

  lemma CongruentAdd(p: Poly, q: Poly, r: Poly)
    requires Congruent(p, q)
    ensures Congruent(Add(p, r), Add(q, r))
  {
    hide Multiple;
    var a: seq<nat> :| Add(p, q) == Multiple(a);
    assert Add(Add(p, r), Add(q, r)) == Add(p, q);
  }

  // ----- There is only one remainder -----

  function Count(powers: seq<nat>, m: nat): nat
    decreases |powers|
  {
    if powers == [] then 0 else (if powers[0] == m then 1 else 0) + Count(powers[1..], m)
  }

  function Without(powers: seq<nat>, m: nat): (rest: seq<nat>)
    ensures forall i :: 0 <= i < |rest| ==> rest[i] in powers && rest[i] != m
    decreases |powers|
  {
    if powers == [] then [] else (if powers[0] == m then [] else [powers[0]]) + Without(powers[1..], m)
  }

  /** Equal powers cancel in pairs. */
  lemma {:induction false} Collect(powers: seq<nat>, m: nat)
    ensures Multiple(powers) ==
            Add(if Count(powers, m) % 2 == 1 then Term(m) else {}, Multiple(Without(powers, m)))
    decreases |powers|
  {
    hide Add, Term;
    if powers != [] {
      Collect(powers[1..], m);
      var first, rest := Term(powers[0]), Multiple(Without(powers[1..], m));
      AddLaws(first, if Count(powers[1..], m) % 2 == 1 then Term(m) else {}, rest);
      AddLaws(first, first, rest);
      if powers[0] == m {
        assert Without(powers, m) == Without(powers[1..], m);
      } else {
        assert Without(powers, m)[1..] == Without(powers[1..], m);
      }
    }
  }

  lemma AddLaws(p: Poly, q: Poly, r: Poly)
    ensures Add(p, Add(q, r)) == Add(q, Add(p, r)) && Add(p, Add(p, r)) == r && Add({}, r) == r
  {
  }

  lemma TermDegree(n: nat)
    ensures Degree(Term(n), n + 33)
  {
  }

  lemma {:induction false} MultipleDegree(powers: seq<nat>, m: nat)
    requires forall i :: 0 <= i < |powers| ==> powers[i] < m
    ensures Degree(Multiple(powers), m + 32)
    decreases |powers|
  {
    hide Term;
    if powers != [] {
      MultipleDegree(powers[1..], m);
      TermDegree(powers[0]);
    }
  }

  lemma {:induction false} MultipleLarge(powers: seq<nat>, m: nat)
    requires forall i :: 0 <= i < |powers| ==> powers[i] < m
    ensures Multiple(powers) == {} || !Degree(Multiple(powers), 32)
    decreases m
  {
    if m > 0 && powers != [] {
      var top := m - 1;
      var rest := Without(powers, top);
      Collect(powers, top);
      MultipleDegree(rest, top);
      if Count(powers, top) % 2 == 1 {
        assert 32 in GENERATOR;
        assert top + 32 in Term(top) && top + 32 !in Multiple(rest);
        assert top + 32 in Multiple(powers);
      } else {
        MultipleLarge(rest, top);
        assert Multiple(powers) == Multiple(rest);
      }
    }
  }

  lemma {:induction false} Bounded(powers: seq<nat>) returns (m: nat)
    ensures forall i :: 0 <= i < |powers| ==> powers[i] < m
    decreases |powers|
  {
    if powers == [] {
      m := 0;
    } else {
      var rest := Bounded(powers[1..]);
      m := if powers[0] < rest then rest else powers[0] + 1;
    }
  }

  /** Polynomials of degree below 32 are congruent only if they are equal. */
  lemma RemainderUnique(p: Poly, q: Poly)
    requires Congruent(p, q) && Degree(p, 32) && Degree(q, 32)
    ensures p == q
  {
    hide Multiple;
    var powers: seq<nat> :| Add(p, q) == Multiple(powers);
    var m := Bounded(powers);
    MultipleLarge(powers, m);
    assert forall e :: e in p <==> e in q;
  }

  // ----- Reading a register -----

  /** The low `k` bits of a register, the lowest for the highest power: the reflected reading. */
  function Reading(c: bv32, k: nat): Poly
    decreases k
  {
    if k == 0 then {} else (if Even(c) then {} else {k - 1}) + Reading(Half(c), k - 1)
  }

  function Polynomial(c: bv32): Poly {
    Reading(c, 32)
  }

  lemma {:induction false} ReadingDegree(c: bv32, k: nat)
    ensures Degree(Reading(c, k), k)
    decreases k
  {
    hide Half, Even;
    if k > 0 {
      ReadingDegree(Half(c), k - 1);
    }
  }

  lemma XorHalf(a: bv32, b: bv32)
    ensures Half(Xor(a, b)) == Xor(Half(a), Half(b))
    ensures Even(Xor(a, b)) <==> (Even(a) <==> Even(b))
  {
    XorShift(a, b);
  }

  lemma {:induction false} ReadingXor(a: bv32, b: bv32, k: nat)
    ensures Reading(Xor(a, b), k) == Add(Reading(a, k), Reading(b, k))
    decreases k
  {
    hide Half, Even, Xor;
    if k > 0 {
      XorHalf(a, b);
      ReadingXor(Half(a), Half(b), k - 1);
      ReadingDegree(Half(a), k - 1);
      ReadingDegree(Half(b), k - 1);
    }
  }

  /** One more bit is one power of x more for all the others. */
  lemma {:induction false} ReadingOneMore(c: bv32, k: nat)
    ensures Reading(c, k + 1) == Shift(Reading(c, k), 1) + (if Even(Halves(c, k)) then {} else {0})
    decreases k
  {
    hide Half, Even, Shift, Reading, Halves;
    ReadNext(c, Half(c), k + 1);
    if k > 0 {
      ReadNext(c, Half(c), k);
      ReadingOneMore(Half(c), k - 1);
      HalvesNext(c, k - 1);
      ShiftUnion(if Even(c) then {} else {k - 1}, Reading(Half(c), k - 1));
      ShiftBit(k - 1);
    } else {
      ReadNone(c);
      ReadNone(Half(c));
      HalvesNone(c);
      ShiftBit(0);
    }
  }

  lemma ReadNone(c: bv32)
    ensures Reading(c, 0) == {}
  {
  }

  lemma ReadNext(c: bv32, half: bv32, k: nat)
    requires k > 0 && Half(c) == half
    ensures Reading(c, k) == (if Even(c) then {} else {k - 1}) + Reading(half, k - 1)
  {
    hide Half, Even;
  }

  lemma ShiftUnion(p: Poly, q: Poly)
    ensures Shift(p + q, 1) == Shift(p, 1) + Shift(q, 1)
  {
  }

  lemma ShiftBit(k: nat)
    ensures Shift({k}, 1) == {k + 1} && Shift({}, 1) == {}
  {
    assert forall e: nat :: e in Shift({k}, 1) <==> e == k + 1;
    assert forall e: nat :: e !in Shift({}, 1);
  }

  function Halves(c: bv32, n: nat): bv32
    decreases n
  {
    if n == 0 then c else Halves(Half(c), n - 1)
  }

  lemma HalvesNone(c: bv32)
    ensures Halves(c, 0) == c
  {
  }

  lemma HalvesNext(c: bv32, n: nat)
    ensures Halves(c, n + 1) == Halves(Half(c), n)
  {
    hide Half;
  }

  lemma {:induction false} HalvesConcat(c: bv32, m: nat, n: nat)
    ensures Halves(c, m + n) == Halves(Halves(c, m), n)
    decreases m
  {
    hide Half;
    if m > 0 {
      HalvesConcat(Half(c), m - 1, n);
    }
  }

  function Down(c: bv32): bv32 {
    c >> 8
  }

  lemma EightHalves(c: bv32)
    ensures Halves(c, 8) == Down(c)
  {
    HalvesAre(c);
    EightDown(c);
  }

  lemma HalvesAre(c: bv32)
    ensures Halves(c, 8) == Half(Half(Half(Half(Half(Half(Half(Half(c))))))))
  {
    hide Half;
    assert Halves(c, 4) == Half(Half(Half(Half(c)))) by {
      assert Halves(c, 4) == Halves(Half(Half(c)), 2);
    }
    var d := Halves(c, 4);
    assert Halves(d, 4) == Half(Half(Half(Half(d)))) by {
      assert Halves(d, 4) == Halves(Half(Half(d)), 2);
    }
    HalvesConcat(c, 4, 4);
  }

  lemma EightDown(c: bv32)
    ensures Half(Half(Half(Half(Half(Half(Half(Half(c)))))))) == Down(c)
  {
  }

  lemma AllDown(c: bv32)
    ensures Down(Down(Down(Down(c)))) == 0
  {
  }

  /** The bit shifted in at the top is zero. */
  lemma TopClear(c: bv32)
    ensures Even(Halves(Half(c), 31))
  {
    hide Half, Down;
    HalvesNext(c, 31);
    HalvesConcat(c, 8, 24);
    HalvesConcat(Down(c), 8, 16);
    HalvesConcat(Down(Down(c)), 8, 8);
    EightHalves(c);
    EightHalves(Down(c));
    EightHalves(Down(Down(c)));
    EightHalves(Down(Down(Down(c))));
    AllDown(c);
  }

  // ----- The constant of the inner loop -----

  lemma GeneratorTo0()
    ensures Reading(0, 0) == {}
  {
  }

  lemma GeneratorTo4()
    ensures Reading(0xe, 4) == {2, 1, 0}
  {
    hide Half, Even, Reading;
    GeneratorTo0();
    GeneratorBits4();
    ReadNext(0x1, 0x0, 1);
    ReadNext(0x3, 0x1, 2);
    ReadNext(0x7, 0x3, 3);
    ReadNext(0xe, 0x7, 4);
  }

  lemma GeneratorBits4()
    ensures Half(0x1) == 0x0 && !Even(0x1)
    ensures Half(0x3) == 0x1 && !Even(0x3)
    ensures Half(0x7) == 0x3 && !Even(0x7)
    ensures Half(0xe) == 0x7 && Even(0xe)
  {
  }

  lemma GeneratorTo8()
    ensures Reading(0xed, 8) == {7, 5, 4, 2, 1, 0}
  {
    hide Half, Even, Reading;
    GeneratorTo4();
    GeneratorBits8();
    ReadNext(0x1d, 0xe, 5);
    ReadNext(0x3b, 0x1d, 6);
    ReadNext(0x76, 0x3b, 7);
    ReadNext(0xed, 0x76, 8);
  }

  lemma GeneratorBits8()
    ensures Half(0x1d) == 0xe && !Even(0x1d)
    ensures Half(0x3b) == 0x1d && !Even(0x3b)
    ensures Half(0x76) == 0x3b && Even(0x76)
    ensures Half(0xed) == 0x76 && !Even(0xed)
  {
  }

  lemma GeneratorTo12()
    ensures Reading(0xedb, 12) == {11, 10, 8, 7, 5, 4, 2, 1, 0}
  {
    hide Half, Even, Reading;
    GeneratorTo8();
    GeneratorBits12();
    ReadNext(0x1db, 0xed, 9);
    ReadNext(0x3b6, 0x1db, 10);
    ReadNext(0x76d, 0x3b6, 11);
    ReadNext(0xedb, 0x76d, 12);
  }

  lemma GeneratorBits12()
    ensures Half(0x1db) == 0xed && !Even(0x1db)
    ensures Half(0x3b6) == 0x1db && Even(0x3b6)
    ensures Half(0x76d) == 0x3b6 && !Even(0x76d)
    ensures Half(0xedb) == 0x76d && !Even(0xedb)
  {
  }

  lemma GeneratorTo16()
    ensures Reading(0xedb8, 16) == {12, 11, 10, 8, 7, 5, 4, 2, 1, 0}
  {
    hide Half, Even, Reading;
    GeneratorTo12();
    GeneratorBits16();
    ReadNext(0x1db7, 0xedb, 13);
    ReadNext(0x3b6e, 0x1db7, 14);
    ReadNext(0x76dc, 0x3b6e, 15);
    ReadNext(0xedb8, 0x76dc, 16);
  }

  lemma GeneratorBits16()
    ensures Half(0x1db7) == 0xedb && !Even(0x1db7)
    ensures Half(0x3b6e) == 0x1db7 && Even(0x3b6e)
    ensures Half(0x76dc) == 0x3b6e && Even(0x76dc)
    ensures Half(0xedb8) == 0x76dc && Even(0xedb8)
  {
  }

  lemma GeneratorTo20()
    ensures Reading(0xedb88, 20) == {16, 12, 11, 10, 8, 7, 5, 4, 2, 1, 0}
  {
    hide Half, Even, Reading;
    GeneratorTo16();
    GeneratorBits20();
    ReadNext(0x1db71, 0xedb8, 17);
    ReadNext(0x3b6e2, 0x1db71, 18);
    ReadNext(0x76dc4, 0x3b6e2, 19);
    ReadNext(0xedb88, 0x76dc4, 20);
  }

  lemma GeneratorBits20()
    ensures Half(0x1db71) == 0xedb8 && !Even(0x1db71)
    ensures Half(0x3b6e2) == 0x1db71 && Even(0x3b6e2)
    ensures Half(0x76dc4) == 0x3b6e2 && Even(0x76dc4)
    ensures Half(0xedb88) == 0x76dc4 && Even(0xedb88)
  {
  }

  lemma GeneratorTo24()
    ensures Reading(0xedb883, 24) == {23, 22, 16, 12, 11, 10, 8, 7, 5, 4, 2, 1, 0}
  {
    hide Half, Even, Reading;
    GeneratorTo20();
    GeneratorBits24();
    ReadNext(0x1db710, 0xedb88, 21);
    ReadNext(0x3b6e20, 0x1db710, 22);
    ReadNext(0x76dc41, 0x3b6e20, 23);
    ReadNext(0xedb883, 0x76dc41, 24);
  }

  lemma GeneratorBits24()
    ensures Half(0x1db710) == 0xedb88 && Even(0x1db710)
    ensures Half(0x3b6e20) == 0x1db710 && Even(0x3b6e20)
    ensures Half(0x76dc41) == 0x3b6e20 && !Even(0x76dc41)
    ensures Half(0xedb883) == 0x76dc41 && !Even(0xedb883)
  {
  }

  lemma GeneratorTo28()
    ensures Reading(0xedb8832, 28) == {26, 23, 22, 16, 12, 11, 10, 8, 7, 5, 4, 2, 1, 0}
  {
    hide Half, Even, Reading;
    GeneratorTo24();
    GeneratorBits28();
    ReadNext(0x1db7106, 0xedb883, 25);
    ReadNext(0x3b6e20c, 0x1db7106, 26);
    ReadNext(0x76dc419, 0x3b6e20c, 27);
    ReadNext(0xedb8832, 0x76dc419, 28);
  }

  lemma GeneratorBits28()
    ensures Half(0x1db7106) == 0xedb883 && Even(0x1db7106)
    ensures Half(0x3b6e20c) == 0x1db7106 && Even(0x3b6e20c)
    ensures Half(0x76dc419) == 0x3b6e20c && !Even(0x76dc419)
    ensures Half(0xedb8832) == 0x76dc419 && Even(0xedb8832)
  {
  }

  lemma GeneratorTo32()
    ensures Reading(0xedb88320, 32) == {26, 23, 22, 16, 12, 11, 10, 8, 7, 5, 4, 2, 1, 0}
  {
    hide Half, Even, Reading;
    GeneratorTo28();
    GeneratorBits32();
    ReadNext(0x1db71064, 0xedb8832, 29);
    ReadNext(0x3b6e20c8, 0x1db71064, 30);
    ReadNext(0x76dc4190, 0x3b6e20c8, 31);
    ReadNext(0xedb88320, 0x76dc4190, 32);
  }

  lemma GeneratorBits32()
    ensures Half(0x1db71064) == 0xedb8832 && Even(0x1db71064)
    ensures Half(0x3b6e20c8) == 0x1db71064 && Even(0x3b6e20c8)
    ensures Half(0x76dc4190) == 0x3b6e20c8 && Even(0x76dc4190)
    ensures Half(0xedb88320) == 0x76dc4190 && Even(0xedb88320)
  {
  }

  /** The constant of the inner loop is the generator without its highest power, lowest power first. */
  lemma PolynomialIsGenerator()
    ensures Add(Polynomial(POLYNOMIAL), {32}) == GENERATOR
  {
    hide Reading;
    GeneratorTo32();
  }

  // ----- The loops -----

  /** Shifting the register by one bit multiplies by x, modulo the generator. */
  lemma BitStepMultiplies(c: bv32)
    ensures Congruent(Polynomial(BitStep(c)), Shift(Polynomial(c), 1))
  {
    hide Half, Even, Xor, Reading, Add, Shift, Multiple;
    BitStepIs(c);
    PolynomialHalf(c);
    if Even(c) {
      Reflexive(Shift(Polynomial(c), 1));
    } else {
      ReadingXor(Half(c), POLYNOMIAL, 32);
      PolynomialIsGenerator();
      OneGenerator();
      assert Add(Polynomial(BitStep(c)), Shift(Polynomial(c), 1)) == GENERATOR;
    }
  }

  lemma BitStepIs(c: bv32)
    ensures BitStep(c) == if Even(c) then Half(c) else Xor(Half(c), POLYNOMIAL)
  {
    LowBit(c);
    XorZero(c >> 1);
  }

  lemma LowBit(c: bv32)
    ensures c & 1 == 0 || c & 1 == 1
  {
  }

  lemma XorZero(c: bv32)
    ensures c ^ 0 == c
  {
  }

  lemma OneGenerator()
    ensures Multiple([0]) == GENERATOR
  {
    assert [0][1..] == [];
  }

  lemma PolynomialHalf(c: bv32)
    ensures Shift(Polynomial(c), 1) == if Even(c) then Polynomial(Half(c)) else Add(Polynomial(Half(c)), {32})
  {
    hide Half, Even, Shift, Halves, Reading;
    TopClear(c);
    ReadNext(c, Half(c), 32);
    ReadingOneMore(Half(c), 31);
    ReadingDegree(Half(c), 32);
    ShiftUnion(if Even(c) then {} else {31}, Reading(Half(c), 31));
    ShiftBit(31);
  }

  lemma TwoSteps(c: bv32, d: bv32, n: nat)
    requires Congruent(Polynomial(d), Shift(Polynomial(c), n))
    ensures Congruent(Polynomial(BitStep(d)), Shift(Polynomial(c), n + 1))
  {
    hide BitStep, Polynomial, Congruent, Shift;
    BitStepMultiplies(d);
    CongruentShift(Polynomial(d), Shift(Polynomial(c), n), 1);
    ShiftTwice(Polynomial(c), n, 1);
    Transitive(Polynomial(BitStep(d)), Shift(Polynomial(d), 1), Shift(Polynomial(c), n + 1));
  }

  lemma {:induction false} StepsMultiply(c: bv32, n: nat)
    ensures Congruent(Polynomial(Steps(c, n)), Shift(Polynomial(c), n))
  {
    hide BitStep, Polynomial, Congruent;
    if n == 0 {
      assert Shift(Polynomial(c), 0) == Polynomial(c);
      Reflexive(Polynomial(c));
    } else {
      StepsMultiply(c, n - 1);
      TwoSteps(c, Steps(c, n - 1), n - 1);
    }
  }

  /** A byte is added at the top and the sum multiplied by x^8. */
  lemma ByteStepMultiplies(c: bv32, b: byte)
    ensures Congruent(Polynomial(ByteStep(c, b)), Add(Shift(Polynomial(c), 8), Shift(Polynomial(Word(b)), 8)))
  {
    hide BitStep, ByteShift, Reading, Congruent, Word, Xor, Shift, Add;
    var x := Xor(c, Word(b));
    EightSteps(x);
    StepsMultiply(x, 8);
    ReadingXor(c, Word(b), 32);
    ShiftAdd(Polynomial(c), Polynomial(Word(b)), 8);
  }

  // ----- The message -----

  function Pow2(n: nat): (p: nat)
    ensures p > 0
  {
    if n == 0 then 1 else 2 * Pow2(n - 1)
  }

  predicate IntBit(x: nat, j: nat) {
    x / Pow2(j) % 2 == 1
  }

  /** Bit `i` of the data: byte after byte, the lowest bit of a byte first. */
  predicate DataBit(data: seq<byte>, i: nat)
    requires i < 8 * |data|
  {
    IntBit(data[i / 8], i % 8)
  }

  function Highest(data: seq<byte>): nat {
    32 + 8 * |data|
  }

  /** The data as a polynomial, times x^32: its first bit has the highest power. */
  function Message(data: seq<byte>): Poly {
    set e | e in Lower(Highest(data)) && e >= 32 && DataBit(data, Highest(data) - 1 - e)
  }

  /** All powers below `k`. */
  function Lower(k: nat): (r: Poly)
    ensures forall e: nat {:trigger e in r} :: e in r <==> e < k
  {
    if k == 0 then {} else Lower(k - 1) + {k - 1}
  }

  /** The 32 highest powers of the message. */
  function Ones(n: nat): Poly {
    Shift(Lower(32), 8 * n)
  }

  /** The message with its first 32 coefficients complemented. */
  function Dividend(data: seq<byte>): Poly {
    Add(Ones(|data|), Message(data))
  }

  lemma HalfEight(v: bv8)
    ensures (v >> 1) as int == (v as int) / 2
    ensures v & 1 == 1 <==> (v as int) % 2 == 1
    ensures Half(v as bv32) == (v >> 1) as bv32
    ensures Even(v as bv32) <==> v & 1 != 1
  {
  }

  lemma DivideTwice(x: nat, d: nat)
    requires d > 0
    ensures x / 2 / d == x / (2 * d)
  {
    var q, r := x / 2 / d, x / 2 % d;
    assert x / 2 == q * d + r;
    assert x == 2 * (x / 2) + x % 2;
    assert x == q * (2 * d) + (2 * r + x % 2);
    DivModUnique(q, 2 * r + x % 2, 2 * d);
  }

  lemma IntBitNext(x: nat, j: nat)
    ensures IntBit(x, j + 1) == IntBit(x / 2, j)
    ensures IntBit(x, 0) <==> x % 2 == 1
  {
    DivideTwice(x, Pow2(j));
    assert Pow2(0) == 1;
  }

  lemma ByteHalf(v: bv8)
    ensures Half(v as bv32) == (v >> 1) as bv32
    ensures Even(v as bv32) <==> !IntBit(ByteValue(v), 0)
    ensures ByteValue(v >> 1) == ByteValue(v) / 2
  {
    HalfEight(v);
    hide IntBit;
    IntBitNext(ByteValue(v), 0);
  }

  function ByteValue(v: bv8): nat {
    v as int
  }

  lemma {:induction false} ReadingByte(v: bv8, k: nat, e: nat)
    ensures e in Reading(v as bv32, k) <==> e < k && IntBit(ByteValue(v), k - 1 - e)
    decreases k
  {
    hide Half, Even, IntBit, ByteValue;
    if k > 0 {
      ByteHalf(v);
      ReadingDegree((v >> 1) as bv32, k - 1);
      if e < k - 1 {
        ReadingByte(v >> 1, k - 1, e);
        IntBitNext(ByteValue(v), k - 2 - e);
      }
    }
  }

  lemma {:induction false} Pow2Large(n: nat)
    requires n >= 8
    ensures Pow2(n) >= 256
  {
    if n == 8 {
      assert Pow2(2) == 4 && Pow2(4) == 16 && Pow2(6) == 64;
    } else {
      Pow2Large(n - 1);
    }
  }

  lemma WordMeans(b: byte, e: nat)
    ensures e in Polynomial(Word(b)) <==> 24 <= e < 32 && IntBit(b, 31 - e)
  {
    hide Reading, IntBit;
    BitsRoundTrip(b);
    ReadingByte(Bits(b), 32, e);
    if e < 24 {
      NoHighBit(b, 31 - e);
    }
  }

  lemma NoHighBit(b: byte, j: nat)
    requires j >= 8
    ensures !IntBit(b, j)
  {
    Pow2Large(j);
    DivModUnique(0, b, Pow2(j));
  }

  /** The first byte comes in eight powers above the rest. */
  lemma MessageFirst(data: seq<byte>)
    requires data != []
    ensures Message(data) == Add(Shift(Polynomial(Word(data[0])), 8 * |data|), Message(data[1..]))
  {
    var n := 8 * |data|;
    var first := Shift(Polynomial(Word(data[0])), n);
    hide Polynomial, Word, Message, Shift;
    forall e: nat
      ensures e in Message(data) <==> (e in first) != (e in Message(data[1..]))
    {
      MessageParts(data, e);
    }
  }

  lemma MessageMeans(data: seq<byte>, e: nat)
    ensures e in Message(data) <==> 32 <= e < Highest(data) && DataBit(data, Highest(data) - 1 - e)
  {
    hide DataBit;
  }

  lemma MessageParts(data: seq<byte>, e: nat)
    requires data != []
    ensures e in Message(data) <==> (e in Shift(Polynomial(Word(data[0])), 8 * |data|)) != (e in Message(data[1..]))
  {
    hide Polynomial, Word, IntBit;
    var n := 8 * |data|;
    if e >= n {
      WordMeans(data[0], e - n);
    }
    if n + 24 <= e < n + 32 {
      MessageHead(data, e);
    } else if 32 <= e < n + 24 {
      MessageRest(data, e);
    }
  }

  lemma MessageHead(data: seq<byte>, e: nat)
    requires data != [] && 24 + 8 * |data| <= e < 32 + 8 * |data|
    ensures e in Message(data) <==> IntBit(data[0], 31 + 8 * |data| - e)
    ensures e !in Message(data[1..])
  {
    hide IntBit, Message;
    MessageMeans(data, e);
    MessageMeans(data[1..], e);
    var i := Highest(data) - 1 - e;
    assert i / 8 == 0 && i % 8 == i;
    assert DataBit(data, i) == IntBit(data[0], i);
  }

  lemma MessageRest(data: seq<byte>, e: nat)
    requires data != [] && 32 <= e < 24 + 8 * |data|
    ensures e in Message(data) <==> e in Message(data[1..])
  {
    hide IntBit, Message;
    MessageMeans(data, e);
    MessageMeans(data[1..], e);
    var i := 31 + 8 * |data| - e;
    assert (i - 8) / 8 == i / 8 - 1 && (i - 8) % 8 == i % 8;
    assert data[1..][i / 8 - 1] == data[i / 8];
    assert DataBit(data[1..], i - 8) == DataBit(data, i);
  }

  /** From any start the register after some data is the start times a power of x plus the message, modulo the
      generator. */
  lemma {:induction false} RegisterMultiplies(c: bv32, data: seq<byte>)
    ensures Congruent(Polynomial(Register(c, data)), Add(Shift(Polynomial(c), 8 * |data|), Message(data)))
    decreases |data|
  {
    hide ByteStep, Polynomial, Congruent, Message, Word;
    if data == [] {
      EmptyMessage();
      assert Register(c, data) == c;
      assert Add(Shift(Polynomial(c), 8 * |data|), Message(data)) == Polynomial(c);
      Reflexive(Polynomial(c));
    } else {
      var d, rest := ByteStep(c, data[0]), data[1..];
      var n := 8 * |rest|;
      var sum := Add(Shift(Polynomial(c), 8), Shift(Polynomial(Word(data[0])), 8));
      RegisterMultiplies(d, rest);
      ByteStepMultiplies(c, data[0]);
      CongruentShift(Polynomial(d), sum, n);
      CongruentAdd(Shift(Polynomial(d), n), Shift(sum, n), Message(rest));
      MessageFirst(data);
      Regroup(Polynomial(c), Polynomial(Word(data[0])), Message(rest), n);
      Transitive(Polynomial(Register(c, data)), Add(Shift(Polynomial(d), n), Message(rest)), Add(Shift(Polynomial(c), 8 * |data|), Message(data)));
    }
  }

  lemma EmptyMessage()
    ensures Message([]) == {}
  {
    assert forall e: nat :: e !in Message([]);
  }

  lemma Regroup(p: Poly, q: Poly, m: Poly, n: nat)
    ensures Add(Shift(Add(Shift(p, 8), Shift(q, 8)), n), m) == Add(Shift(p, n + 8), Add(Shift(q, n + 8), m))
  {
    ShiftAdd(Shift(p, 8), Shift(q, 8), n);
    ShiftTwice(p, 8, n);
    ShiftTwice(q, 8, n);
    hide Shift;
  }

  // ----- The first register -----

  /** Eight ones. */
  predicate LowOnes(c: bv32) {
    c & 0xff == 0xff
  }

  lemma EightOnes(c: bv32)
    requires LowOnes(c)
    ensures !Even(c) && !Even(Half(c)) && !Even(Half(Half(c))) && !Even(Half(Half(Half(c))))
    ensures !Even(Half(Half(Half(Half(c))))) && !Even(Half(Half(Half(Half(Half(c))))))
    ensures !Even(Half(Half(Half(Half(Half(Half(c)))))))
    ensures !Even(Half(Half(Half(Half(Half(Half(Half(c))))))))
  {
  }

  lemma OneMore(c: bv32, k: nat)
    requires !Even(c) && Reading(Half(c), k) == Lower(k)
    ensures Reading(c, k + 1) == Lower(k + 1)
  {
    hide Half, Even;
  }

  lemma EightMore(c: bv32, k: nat)
    requires LowOnes(c) && Reading(Down(c), k) == Lower(k)
    ensures Reading(c, k + 8) == Lower(k + 8)
  {
    EightOnes(c);
    EightDown(c);
    hide Half, Even, Down, LowOnes, Reading, Lower;
    var c1 := Half(c);
    var c2 := Half(c1);
    var c3 := Half(c2);
    var c4 := Half(c3);
    var c5 := Half(c4);
    var c6 := Half(c5);
    var c7 := Half(c6);
    OneMore(c7, k);
    OneMore(c6, k + 1);
    OneMore(c5, k + 2);
    OneMore(c4, k + 3);
    OneMore(c3, k + 4);
    OneMore(c2, k + 5);
    OneMore(c1, k + 6);
    OneMore(c, k + 7);
  }

  lemma NoPowers()
    ensures Lower(0) == {}
  {
  }

  lemma LargestOnes()
    ensures LowOnes(0xffffffff) && LowOnes(0xffffff) && LowOnes(0xffff) && LowOnes(0xff)
    ensures Down(0xffffffff) == 0xffffff && Down(0xffffff) == 0xffff && Down(0xffff) == 0xff && Down(0xff) == 0
  {
  }

  /** The register starts with all coefficients one. */
  lemma AllOnes()
    ensures Polynomial(0xffffffff) == Lower(32)
  {
    hide Reading, Down, LowOnes, Lower;
    GeneratorTo0();
    NoPowers();
    LargestOnes();
    EightMore(0xff, 0);
    EightMore(0xffff, 8);
    EightMore(0xffffff, 16);
    EightMore(0xffffffff, 24);
  }

  lemma CrcWord(data: seq<byte>)
    ensures !(Crc32(data) as bv32) == Register(0xffffffff, data)
  {
    hide Register, ToInt;
    FromInt(!Register(0xffffffff, data));
    DoubleNot(Register(0xffffffff, data));
  }

  lemma DoubleNot(c: bv32)
    ensures !!c == c
  {
  }

  /** The checksum, complemented and read lowest bit first, is the remainder of the dividend modulo the
      generator: congruent to it, of degree below 32, and the only such polynomial. */
  lemma ChecksumIsRemainder(data: seq<byte>)
    ensures var r := Polynomial(!(Crc32(data) as bv32));
            && Congruent(r, Dividend(data)) && Degree(r, 32)
            && forall q: Poly :: Congruent(q, Dividend(data)) && Degree(q, 32) ==> q == r
  {
    hide Register, Reading, Message, Congruent, Degree, Shift, Lower, Crc32;
    var r := Register(0xffffffff, data);
    CrcWord(data);
    RegisterMultiplies(0xffffffff, data);
    AllOnes();
    ReadingDegree(r, 32);
    forall q: Poly | Congruent(q, Dividend(data)) && Degree(q, 32) ensures q == Polynomial(r) {
      Symmetric(Polynomial(r), Dividend(data));
      Transitive(q, Dividend(data), Polynomial(r));
      RemainderUnique(q, Polynomial(r));
    }
  }

  // ----- One value -----

  lemma RegisterStep(c: bv32, data: seq<byte>, x: bv32, next: bv32)
    requires data != [] && x == Xor(c, Word(data[0])) && next == ByteShift(x)
    ensures Register(c, data) == Register(next, data[1..])
  {
    hide ByteShift, Word, Xor;
  }

  /** The check value: the checksum of the nine characters "123456789". */
  lemma CheckValue()
    ensures Crc32([0x31, 0x32, 0x33, 0x34, 0x35, 0x36, 0x37, 0x38, 0x39]) == 0xcbf43926
  {
    hide Register, Finish;
    CheckFirst();
    CheckSecond();
    CheckThird();
    CheckFinish();
  }

  lemma CheckFirst()
    ensures Register(0xffffffff, [0x31, 0x32, 0x33, 0x34, 0x35, 0x36, 0x37, 0x38, 0x39]) == Register(0x77b79c2d, [0x34, 0x35, 0x36, 0x37, 0x38, 0x39])
  {
    hide Xor, Word, ByteShift, Register;
    CheckStart();
    RegisterStep(0xffffffff, [0x31, 0x32, 0x33, 0x34, 0x35, 0x36, 0x37, 0x38, 0x39], 0xffffffce, 0x7c231048);
    assert [0x31, 0x32, 0x33, 0x34, 0x35, 0x36, 0x37, 0x38, 0x39][1..] == [0x32, 0x33, 0x34, 0x35, 0x36, 0x37, 0x38, 0x39];
    RegisterStep(0x7c231048, [0x32, 0x33, 0x34, 0x35, 0x36, 0x37, 0x38, 0x39], 0x7c23107a, 0xb0acbb32);
    assert [0x32, 0x33, 0x34, 0x35, 0x36, 0x37, 0x38, 0x39][1..] == [0x33, 0x34, 0x35, 0x36, 0x37, 0x38, 0x39];
    RegisterStep(0xb0acbb32, [0x33, 0x34, 0x35, 0x36, 0x37, 0x38, 0x39], 0xb0acbb01, 0x77b79c2d);
    assert [0x33, 0x34, 0x35, 0x36, 0x37, 0x38, 0x39][1..] == [0x34, 0x35, 0x36, 0x37, 0x38, 0x39];
  }

  lemma CheckStart()
    ensures 0xffffffce == Xor(0xffffffff, Word(0x31)) && 0x7c231048 == ByteShift(0xffffffce)
    ensures 0x7c23107a == Xor(0x7c231048, Word(0x32)) && 0xb0acbb32 == ByteShift(0x7c23107a)
    ensures 0xb0acbb01 == Xor(0xb0acbb32, Word(0x33)) && 0x77b79c2d == ByteShift(0xb0acbb01)
  {
  }

  lemma CheckSecond()
    ensures Register(0x77b79c2d, [0x34, 0x35, 0x36, 0x37, 0x38, 0x39]) == Register(0xf68d2c9e, [0x37, 0x38, 0x39])
  {
    hide Xor, Word, ByteShift, Register;
    CheckMiddle();
    RegisterStep(0x77b79c2d, [0x34, 0x35, 0x36, 0x37, 0x38, 0x39], 0x77b79c19, 0x641c1f5c);
    assert [0x34, 0x35, 0x36, 0x37, 0x38, 0x39][1..] == [0x35, 0x36, 0x37, 0x38, 0x39];
    RegisterStep(0x641c1f5c, [0x35, 0x36, 0x37, 0x38, 0x39], 0x641c1f69, 0x340ac5e3);
    assert [0x35, 0x36, 0x37, 0x38, 0x39][1..] == [0x36, 0x37, 0x38, 0x39];
    RegisterStep(0x340ac5e3, [0x36, 0x37, 0x38, 0x39], 0x340ac5d5, 0xf68d2c9e);
    assert [0x36, 0x37, 0x38, 0x39][1..] == [0x37, 0x38, 0x39];
  }

  lemma CheckMiddle()
    ensures 0x77b79c19 == Xor(0x77b79c2d, Word(0x34)) && 0x641c1f5c == ByteShift(0x77b79c19)
    ensures 0x641c1f69 == Xor(0x641c1f5c, Word(0x35)) && 0x340ac5e3 == ByteShift(0x641c1f69)
    ensures 0x340ac5d5 == Xor(0x340ac5e3, Word(0x36)) && 0xf68d2c9e == ByteShift(0x340ac5d5)
  {
  }

  lemma CheckThird()
    ensures Register(0xf68d2c9e, [0x37, 0x38, 0x39]) == 0x340bc6d9
  {
    hide Xor, Word, ByteShift, Register;
    CheckEnd();
    RegisterStep(0xf68d2c9e, [0x37, 0x38, 0x39], 0xf68d2ca9, 0xaffc9660);
    assert [0x37, 0x38, 0x39][1..] == [0x38, 0x39];
    RegisterStep(0xaffc9660, [0x38, 0x39], 0xaffc9658, 0x651f2550);
    assert [0x38, 0x39][1..] == [0x39];
    RegisterStep(0x651f2550, [0x39], 0x651f2569, 0x340bc6d9);
    assert [0x39][1..] == [];
    RegisterNone(0x340bc6d9);
  }

  lemma CheckEnd()
    ensures 0xf68d2ca9 == Xor(0xf68d2c9e, Word(0x37)) && 0xaffc9660 == ByteShift(0xf68d2ca9)
    ensures 0xaffc9658 == Xor(0xaffc9660, Word(0x38)) && 0x651f2550 == ByteShift(0xaffc9658)
    ensures 0x651f2569 == Xor(0x651f2550, Word(0x39)) && 0x340bc6d9 == ByteShift(0x651f2569)
  {
  }

  lemma RegisterNone(c: bv32)
    ensures Register(c, []) == c
  {
  }

  lemma CheckFinish()
    ensures Finish(0x340bc6d9) == 0xcbf43926
  {
  }
}
