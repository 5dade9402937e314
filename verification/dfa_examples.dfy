/**
 * The example machines of dfa_examples.py.  For even_zeros, M1,
 * ends_with_01, first_eq_last, contains_001 and `DFA_modulo(n)` the language
 * their comments claim is proved over all words of their alphabets.  For
 * ends_with_001 the claim is refuted for the table as written
 * (`EndsWith001Counterexample`) and proved only for the table with the entry
 * for ("001", '0') corrected.  The elevator is proved to recognise no word
 * (`ElevatorAcceptsNothing`).  Each `...State` lemma says which state a word
 * leads to; the `...Language` lemma reads the verdict off it; the
 * `...Verdicts` lemma checks the inputs the file runs.
 */
module DfaExamples {
  import opened Dfa

  // ---------------------------------------------------------------------
  // Words

  /** Every letter of `w` is '0' or '1'. */
  ghost predicate Binary(w: string)
  {
    forall i :: 0 <= i < |w| ==> w[i] == '0' || w[i] == '1'
  }

  /** Every letter of `w` is 'a' or 'b'. */
  ghost predicate OverAB(w: string)
  {
    forall i :: 0 <= i < |w| ==> w[i] == 'a' || w[i] == 'b'
  }

  predicate EndsWith(w: string, p: string)
  {
    |p| <= |w| && w[|w| - |p|..] == p
  }

  /** `p` occurs in `w` starting at position `i`. */
  predicate InfixAt(w: string, p: string, i: int)
  {
    0 <= i && i + |p| <= |w| && w[i..i + |p|] == p
  }

  /** `p` occurs in `w` as a block of consecutive letters. */
  ghost predicate HasInfix(w: string, p: string)
  {
    exists i :: InfixAt(w, p, i)
  }

  /** Number of '0' letters after the last '1' of `w`. */
  function ZerosAfterLastOne(w: string): nat
  {
    if w == [] || w[|w| - 1] != '0' then 0 else ZerosAfterLastOne(w[..|w| - 1]) + 1
  }

  /** Number of occurrences of `c` in `w`. */
  function Count(w: string, c: char): nat
  {
    if w == [] then 0 else Count(w[..|w| - 1], c) + (if w[|w| - 1] == c then 1 else 0)
  }

  /** A new occurrence of `p` after appending `c` must end at the new letter. */
  lemma InfixSnoc(w: string, c: char, p: string)
    requires |p| >= 1
    ensures HasInfix(w + [c], p) <==> HasInfix(w, p) || EndsWith(w + [c], p)
  {
    var v := w + [c];
    if HasInfix(v, p) {
      var i :| InfixAt(v, p, i);
      if i + |p| <= |w| {
        assert w[i..i + |p|] == v[i..i + |p|];
        assert InfixAt(w, p, i);
      } else {
        assert i == |v| - |p|;
      }
    }
    if HasInfix(w, p) {
      var i :| InfixAt(w, p, i);
      assert v[i..i + |p|] == w[i..i + |p|];
      assert InfixAt(v, p, i);
    }
    if EndsWith(v, p) {
      assert v[|v| - |p|..|v| - |p| + |p|] == p;
      assert InfixAt(v, p, |v| - |p|);
    }
  }

  // ---------------------------------------------------------------------
  // Decimal numerals, as Python's f'{i}' writes them

  function DigitChar(d: nat): char
    requires d < 10
  {
    ('0' as int + d) as char
  }

  /** The decimal numeral of `n`: non-empty, all digits. */
  function Str(n: nat): (r: string)
    ensures |r| >= 1
    ensures forall i :: 0 <= i < |r| ==> '0' <= r[i] <= '9'
    ensures n >= 10 ==> |r| >= 2
    decreases n
  {
    if n < 10 then [DigitChar(n)] else Str(n / 10) + [DigitChar(n % 10)]
  }

  /** Numerals of distinct numbers differ. */
  lemma {:induction false} StrInjective(a: nat, b: nat)
    ensures Str(a) == Str(b) <==> a == b
    decreases a
  {
    if Str(a) == Str(b) {
      if a < 10 && b < 10 {
        assert DigitChar(a) as int == '0' as int + a;
        assert DigitChar(b) as int == '0' as int + b;
      } else if a >= 10 && b >= 10 {
        var sa, sb := Str(a), Str(b);
        assert sa[|sa| - 1] == DigitChar(a % 10) && sb[|sb| - 1] == DigitChar(b % 10);
        assert DigitChar(a % 10) as int == '0' as int + a % 10;
        assert DigitChar(b % 10) as int == '0' as int + b % 10;
        assert Str(a / 10) == sa[..|sa| - 1] == sb[..|sb| - 1] == Str(b / 10);
        StrInjective(a / 10, b / 10);
      }
    }
  }

  /** No numeral is the reset symbol "r". */
  lemma StrNotReset(a: nat)
    ensures Str(a) != "r"
  {
    assert '0' <= Str(a)[0] <= '9';
  }

  /** The value of a digit letter. */
  function DigitValue(c: char): nat
    requires '0' <= c <= '9'
  {
    c as int - '0' as int
  }

  lemma DigitStr(c: char)
    requires '0' <= c <= '9'
    ensures DigitValue(c) < 10 && Str(DigitValue(c)) == [c]
  {
    assert DigitChar(DigitValue(c)) as int == c as int;
  }

  // ---------------------------------------------------------------------
  // Example 2: an even number of zeros

  const EvenZeros := DFA({"even", "odd"}, {"0"},
    map[("even", "0") := "odd", ("odd", "0") := "even"],
    "even", {"even"})

  /** even_zeros's table: on '0' the two states swap. */
  lemma EvenZerosStep(q: State)
    requires q in EvenZeros.states
    ensures (q, "0") in EvenZeros.delta
    ensures EvenZeros.delta[(q, "0")] == if q == "even" then "odd" else "even"
    ensures EvenZeros.delta[(q, "0")] != q
  {
    // One branch per row, so that the solver looks up one literal key of the table at a time.
    if q == "even" {
      assert "odd"[0] != "even"[0];
    } else {
      assert "odd"[0] != "even"[0];
    }
  }

  lemma {:induction false} EvenZerosState(w: string)
    requires forall i :: 0 <= i < |w| ==> w[i] == '0'
    ensures Defined(EvenZeros.delta, "even", w)
    ensures Final(EvenZeros.delta, "even", w) == if Count(w, '0') % 2 == 0 then "even" else "odd"
    decreases |w|
  {
    if w != [] {
      var u, c := w[..|w| - 1], w[|w| - 1];
      assert w == u + [c];
      EvenZerosState(u);
      FinalSnoc(EvenZeros.delta, "even", u, c);
    }
  }

  /** even_zeros accepts a word of zeros iff it has an even number of them. */
  lemma EvenZerosLanguage(w: string)
    requires forall i :: 0 <= i < |w| ==> w[i] == '0'
    ensures Defined(EvenZeros.delta, EvenZeros.initial, w)
    ensures Accepts(EvenZeros, w) <==> Count(w, '0') % 2 == 0
  {
    EvenZerosState(w);
  }

  lemma EvenZerosVerdicts()
    ensures Defined(EvenZeros.delta, EvenZeros.initial, "00") && Accepts(EvenZeros, "00")
    ensures Defined(EvenZeros.delta, EvenZeros.initial, "000") && !Accepts(EvenZeros, "000")
    ensures Defined(EvenZeros.delta, EvenZeros.initial, "") && Accepts(EvenZeros, "")
  {
  }

  // ---------------------------------------------------------------------
  // Example 3 (M1): a '1', then an even number of zeros after the last '1'

  const M1 := DFA({"1", "2", "3"}, {"0", "1"},
    map[("1", "0") := "1", ("1", "1") := "2",
        ("2", "0") := "3", ("2", "1") := "2",
        ("3", "0") := "2", ("3", "1") := "2"],
    "1", {"2"})

  function M1Expected(w: string): State
  {
    if '1' !in w then "1" else if ZerosAfterLastOne(w) % 2 == 0 then "2" else "3"
  }

  /** One row of M1's table: a '1' leads to "2"; a '0' from "1" stays, otherwise toggles "2" and "3". */
  lemma M1Step(q: State, c: char)
    requires q in M1.states && (c == '0' || c == '1')
    ensures (q, [c]) in M1.delta
    ensures M1.delta[(q, [c])] == if c == '1' then "2" else if q == "1" then "1" else if q == "2" then "3" else "2"
  {
    // One branch per row, so that the solver looks up one literal key of the table at a time.
    if c == '0' {
      if q == "1" {} else if q == "2" {} else {}
    } else {
      if q == "1" {} else if q == "2" {} else {}
    }
  }

  /** How M1's expected state moves on one more letter, as the table's row says. */
  lemma M1ExpectedSnoc(u: string, c: char)
    requires c == '0' || c == '1'
    ensures M1Expected(u + [c]) ==
            if c == '1' then "2"
            else if M1Expected(u) == "1" then "1"
            else if M1Expected(u) == "2" then "3" else "2"
  {
    var w := u + [c];
    assert w[..|w| - 1] == u;
    assert ('1' in w) <==> ('1' in u || c == '1');
  }

  lemma {:induction false} M1State(w: string)
    requires Binary(w)
    ensures Defined(M1.delta, "1", w)
    ensures Final(M1.delta, "1", w) == M1Expected(w)
    decreases |w|
  {
    if w != [] {
      var u, c := w[..|w| - 1], w[|w| - 1];
      assert w == u + [c];
      M1State(u);
      M1Step(M1Expected(u), c);
      FinalSnoc(M1.delta, "1", u, c);
      M1ExpectedSnoc(u, c);
    }
  }

  /** M1 accepts iff the word has a '1' and an even number of zeros after its last '1'. */
  lemma M1Language(w: string)
    requires Binary(w)
    ensures Defined(M1.delta, M1.initial, w)
    ensures Accepts(M1, w) <==> '1' in w && ZerosAfterLastOne(w) % 2 == 0
  {
    M1State(w);
  }

  /** The inputs dfa_examples.py runs through M1, one word per lemma. */
  lemma M1On01010001()
    ensures Defined(M1.delta, M1.initial, "01010001") && Accepts(M1, "01010001")
  {
  }

  lemma M1On101000100()
    ensures Defined(M1.delta, M1.initial, "101000100") && Accepts(M1, "101000100")
  {
  }

  lemma M1On1010001000()
    ensures Defined(M1.delta, M1.initial, "1010001000") && !Accepts(M1, "1010001000")
  {
  }

  lemma M1Verdicts()
    ensures Defined(M1.delta, M1.initial, "01010001") && Accepts(M1, "01010001")
    ensures Defined(M1.delta, M1.initial, "1") && Accepts(M1, "1")
    ensures Defined(M1.delta, M1.initial, "101000100") && Accepts(M1, "101000100")
    ensures Defined(M1.delta, M1.initial, "1010001000") && !Accepts(M1, "1010001000")
  {
    M1On01010001();
    M1On101000100();
    M1On1010001000();
  }

  // ---------------------------------------------------------------------
  // Example 4: ends with "01"

  const EndsWith01 := DFA({"ε", "0", "01"}, {"0", "1"},
    map[("ε", "0") := "0", ("ε", "1") := "ε",
        ("0", "0") := "0", ("0", "1") := "01",
        ("01", "0") := "0", ("01", "1") := "ε"],
    "ε", {"01"})

  function EndsWith01Expected(w: string): State
  {
    if EndsWith(w, "01") then "01" else if EndsWith(w, "0") then "0" else "ε"
  }

  /** One row of ends_with_01's table. */
  lemma EndsWith01Step(q: State, c: char)
    requires q in EndsWith01.states && (c == '0' || c == '1')
    ensures (q, [c]) in EndsWith01.delta
    ensures EndsWith01.delta[(q, [c])] == if c == '0' then "0" else if q == "0" then "01" else "ε"
  {
    // One branch per row, so that the solver looks up one literal key of the table at a time.
    if c == '0' {
      if q == "ε" {} else if q == "0" {} else {}
    } else {
      if q == "ε" {} else if q == "0" {} else {}
    }
  }

  /** How ends_with_01's expected state moves on one more letter. */
  lemma EndsWith01ExpectedSnoc(u: string, c: char)
    requires c == '0' || c == '1'
    ensures EndsWith01Expected(u + [c]) ==
            if c == '0' then "0" else if EndsWith01Expected(u) == "0" then "01" else "ε"
  {
    assert "0"[..0] == [] && "01"[..1] == "0";
    EndsWithSnoc(u, c, "0");
    EndsWithSnoc(u, c, "01");
    if EndsWith(u, "01") {
      EndsWithLast(u, "01");
    }
  }

  lemma {:induction false} EndsWith01State(w: string)
    requires Binary(w)
    ensures Defined(EndsWith01.delta, "ε", w)
    ensures Final(EndsWith01.delta, "ε", w) == EndsWith01Expected(w)
    decreases |w|
  {
    if w != [] {
      var u, c := w[..|w| - 1], w[|w| - 1];
      assert w == u + [c];
      EndsWith01State(u);
      EndsWith01Step(EndsWith01Expected(u), c);
      FinalSnoc(EndsWith01.delta, "ε", u, c);
      EndsWith01ExpectedSnoc(u, c);
    }
  }

  /** ends_with_01 accepts exactly the words ending in "01". */
  lemma EndsWith01Language(w: string)
    requires Binary(w)
    ensures Defined(EndsWith01.delta, EndsWith01.initial, w)
    ensures Accepts(EndsWith01, w) <==> EndsWith(w, "01")
  {
    EndsWith01State(w);
  }

  /** The inputs dfa_examples.py runs through ends_with_01, one word per lemma. */
  lemma EndsWith01On10100101()
    ensures Defined(EndsWith01.delta, EndsWith01.initial, "10100101") && Accepts(EndsWith01, "10100101")
  {
  }

  lemma EndsWith01On1000011()
    ensures Defined(EndsWith01.delta, EndsWith01.initial, "1000011") && !Accepts(EndsWith01, "1000011")
  {
  }

  lemma EndsWith01Verdicts()
    ensures Defined(EndsWith01.delta, EndsWith01.initial, "01") && Accepts(EndsWith01, "01")
    ensures Defined(EndsWith01.delta, EndsWith01.initial, "10100101") && Accepts(EndsWith01, "10100101")
    ensures Defined(EndsWith01.delta, EndsWith01.initial, "1000011") && !Accepts(EndsWith01, "1000011")
  {
    EndsWith01On10100101();
    EndsWith01On1000011();
  }

  // ---------------------------------------------------------------------
  // Example 6: ends with "001", as written and as intended

  /** The table as written: from "001", a '0' goes back to "ε". */
  const EndsWith001 := DFA({"ε", "0", "00", "001"}, {"0", "1"},
    map[("ε", "0") := "0", ("ε", "1") := "ε",
        ("0", "0") := "00", ("0", "1") := "ε",
        ("00", "0") := "00", ("00", "1") := "001",
        ("001", "0") := "ε", ("001", "1") := "ε"],
    "ε", {"001"})

  /**
   * ends_with_001's table as written: a '1' leads to "001" from "00" and to
   * "ε" otherwise; a '0' leads to "0" from "ε", to "00" from "0" and "00",
   * and back to "ε" from "001".
   */
  lemma EndsWith001Step(q: State, c: char)
    requires q in EndsWith001.states && (c == '0' || c == '1')
    ensures (q, [c]) in EndsWith001.delta
    ensures EndsWith001.delta[(q, [c])] ==
            if c == '1' then (if q == "00" then "001" else "ε")
            else if q == "ε" then "0" else if q == "001" then "ε" else "00"
  {
    // One branch per row, so that the solver looks up one literal key of the table at a time.
    if c == '0' {
      if q == "ε" {} else if q == "0" {} else if q == "00" {} else {}
    } else {
      if q == "ε" {} else if q == "0" {} else if q == "00" {} else {}
    }
  }

  /** The same table with the entry for ("001", '0') sent to "0". */
  const EndsWith001Fixed := DFA({"ε", "0", "00", "001"}, {"0", "1"},
    map[("ε", "0") := "0", ("ε", "1") := "ε",
        ("0", "0") := "00", ("0", "1") := "ε",
        ("00", "0") := "00", ("00", "1") := "001",
        ("001", "0") := "0", ("001", "1") := "ε"],
    "ε", {"001"})

  lemma EndsWith001Verdicts()
    ensures Defined(EndsWith001.delta, EndsWith001.initial, "1001") && Accepts(EndsWith001, "1001")
    ensures Defined(EndsWith001.delta, EndsWith001.initial, "0011") && !Accepts(EndsWith001, "0011")
    ensures Defined(EndsWith001.delta, EndsWith001.initial, "") && !Accepts(EndsWith001, "")
    ensures Defined(EndsWith001.delta, EndsWith001.initial, "01") && !Accepts(EndsWith001, "01")
  {
  }

  /**
   * The table as written rejects "001001", which ends with "001": the
   * comment's language is not the table's.
   */
  lemma EndsWith001Counterexample()
    ensures EndsWith("001001", "001")
    ensures Defined(EndsWith001.delta, EndsWith001.initial, "001001")
    ensures !Accepts(EndsWith001, "001001")
  {
  }

  function EndsWith001Expected(w: string): State
  {
    if EndsWith(w, "001") then "001"
    else if EndsWith(w, "00") then "00"
    else if EndsWith(w, "0") then "0"
    else "ε"
  }

  /** One row of the corrected table. */
  lemma EndsWith001FixedStep(q: State, c: char)
    requires q in EndsWith001Fixed.states && (c == '0' || c == '1')
    ensures (q, [c]) in EndsWith001Fixed.delta
    ensures EndsWith001Fixed.delta[(q, [c])] ==
            if c == '1' then (if q == "00" then "001" else "ε")
            else if q == "0" || q == "00" then "00" else "0"
  {
    // One branch per row, so that the solver looks up one literal key of the table at a time.
    if c == '0' {
      if q == "ε" {} else if q == "0" {} else if q == "00" {} else {}
    } else {
      if q == "ε" {} else if q == "0" {} else if q == "00" {} else {}
    }
  }

  /** The corrected machine differs from the one as written in the entry for ("001", '0') alone. */
  lemma EndsWith001Correction()
    ensures EndsWith001Fixed.delta == EndsWith001.delta[("001", "0") := "0"]
    ensures EndsWith001.delta[("001", "0")] == "ε"
    ensures EndsWith001Fixed.states == EndsWith001.states
    ensures EndsWith001Fixed.initial == EndsWith001.initial && EndsWith001Fixed.final == EndsWith001.final
  {
  }

  lemma {:induction false} EndsWith001FixedState(w: string)
    requires Binary(w)
    ensures Defined(EndsWith001Fixed.delta, "ε", w)
    ensures Final(EndsWith001Fixed.delta, "ε", w) == EndsWith001Expected(w)
    decreases |w|
  {
    if w != [] {
      var u, c := w[..|w| - 1], w[|w| - 1];
      assert w == u + [c];
      EndsWith001FixedState(u);
      EndsWith001FixedStep(EndsWith001Expected(u), c);
      FinalSnoc(EndsWith001Fixed.delta, "ε", u, c);
      SuffixSteps(u, c);
    }
  }

  /** `u + [c]` ends with `p` iff `c` is the last letter of `p` and `u` ends with the rest. */
  lemma EndsWithSnoc(u: string, c: char, p: string)
    requires p != []
    ensures EndsWith(u + [c], p) <==> p[|p| - 1] == c && EndsWith(u, p[..|p| - 1])
  {
    var w := u + [c];
    assert p == p[..|p| - 1] + [p[|p| - 1]];
    if |p| <= |w| {
      assert w[|w| - |p|..] == u[|u| - (|p| - 1)..] + [c];
    }
  }

  /** A word ending with `p` ends with the last letter of `p`. */
  lemma EndsWithLast(u: string, p: string)
    requires p != [] && EndsWith(u, p)
    ensures EndsWith(u, [p[|p| - 1]])
  {
    assert u[|u| - 1] == u[|u| - |p|..][|p| - 1];
    assert u[|u| - 1..] == [u[|u| - 1]];
  }

  /** How the suffixes "0", "00" and "001" of `u + [c]` follow from those of `u`. */
  lemma SuffixSteps(u: string, c: char)
    ensures EndsWith(u + [c], "0") <==> c == '0'
    ensures EndsWith(u + [c], "00") <==> EndsWith(u, "0") && c == '0'
    ensures EndsWith(u + [c], "001") <==> EndsWith(u, "00") && c == '1'
    ensures EndsWith(u, "001") ==> !EndsWith(u, "0")
    ensures EndsWith(u, "00") ==> EndsWith(u, "0")
  {
    assert "0"[..0] == [] && "00"[..1] == "0" && "001"[..2] == "00";
    EndsWithSnoc(u, c, "0");
    EndsWithSnoc(u, c, "00");
    EndsWithSnoc(u, c, "001");
    if EndsWith(u, "001") {
      EndsWithLast(u, "001");
    }
    if EndsWith(u, "00") {
      EndsWithLast(u, "00");
    }
  }

  /** With the corrected entry the machine accepts exactly the words ending in "001". */
  lemma EndsWith001FixedLanguage(w: string)
    requires Binary(w)
    ensures Defined(EndsWith001Fixed.delta, EndsWith001Fixed.initial, w)
    ensures Accepts(EndsWith001Fixed, w) <==> EndsWith(w, "001")
  {
    EndsWith001FixedState(w);
  }

  // ---------------------------------------------------------------------
  // Example 7: first letter equals last letter

  const FirstEqLast := DFA({"s", "a", "not a", "b", "not b"}, {"a", "b"},
    map[("s", "a") := "a", ("s", "b") := "b",
        ("a", "a") := "a", ("a", "b") := "not a",
        ("b", "a") := "not b", ("b", "b") := "b",
        ("not a", "a") := "a", ("not a", "b") := "not a",
        ("not b", "a") := "not b", ("not b", "b") := "b"],
    "s", {"a", "b"})

  function FirstEqLastExpected(w: string): State
  {
    if w == [] then "s"
    else if w[0] == 'a' then (if w[|w| - 1] == 'a' then "a" else "not a")
    else (if w[|w| - 1] == 'b' then "b" else "not b")
  }

  /**
   * first_eq_last's table: from "s" the first letter is remembered; after
   * that the state says whether the last letter equals the first.
   */
  lemma FirstEqLastStep(q: State, c: char)
    requires q in FirstEqLast.states && (c == 'a' || c == 'b')
    ensures (q, [c]) in FirstEqLast.delta
    ensures FirstEqLast.delta[(q, [c])] ==
            if q == "s" then [c]
            else if q == "a" || q == "not a" then (if c == 'a' then "a" else "not a")
            else (if c == 'b' then "b" else "not b")
  {
    // One branch per row, so that the solver looks up one literal key of the table at a time.
    if c == 'a' {
      if q == "s" {} else if q == "a" {} else if q == "not a" {} else if q == "b" {} else {}
    } else {
      if q == "s" {} else if q == "a" {} else if q == "not a" {} else if q == "b" {} else {}
    }
  }

  lemma {:induction false} FirstEqLastState(w: string)
    requires OverAB(w)
    ensures Defined(FirstEqLast.delta, "s", w)
    ensures Final(FirstEqLast.delta, "s", w) == FirstEqLastExpected(w)
    decreases |w|
  {
    if w != [] {
      var u, c := w[..|w| - 1], w[|w| - 1];
      assert w == u + [c];
      FirstEqLastState(u);
      FinalSnoc(FirstEqLast.delta, "s", u, c);
      if u != [] {
        assert w[0] == u[0];
      }
    }
  }

  /** first_eq_last accepts exactly the non-empty words whose first and last letters agree. */
  lemma FirstEqLastLanguage(w: string)
    requires OverAB(w)
    ensures Defined(FirstEqLast.delta, FirstEqLast.initial, w)
    ensures Accepts(FirstEqLast, w) <==> w != [] && w[0] == w[|w| - 1]
  {
    FirstEqLastState(w);
  }

  /** The longest input dfa_examples.py runs through first_eq_last. */
  lemma FirstEqLastOnAbababa()
    ensures Defined(FirstEqLast.delta, FirstEqLast.initial, "abababa") && Accepts(FirstEqLast, "abababa")
  {
  }

  lemma FirstEqLastVerdicts()
    ensures Defined(FirstEqLast.delta, FirstEqLast.initial, "bbaa") && !Accepts(FirstEqLast, "bbaa")
    ensures Defined(FirstEqLast.delta, FirstEqLast.initial, "abababa") && Accepts(FirstEqLast, "abababa")
    ensures Defined(FirstEqLast.delta, FirstEqLast.initial, "baba") && !Accepts(FirstEqLast, "baba")
    ensures Defined(FirstEqLast.delta, FirstEqLast.initial, "a") && Accepts(FirstEqLast, "a")
    ensures Defined(FirstEqLast.delta, FirstEqLast.initial, "") && !Accepts(FirstEqLast, "")
  {
    FirstEqLastOnAbababa();
  }

  // ---------------------------------------------------------------------
  // Example 9: contains "001"

  const Contains001 := DFA({"ε", "0", "00", "001"}, {"0", "1"},
    map[("ε", "0") := "0", ("ε", "1") := "ε",
        ("0", "0") := "00", ("0", "1") := "ε",
        ("00", "0") := "00", ("00", "1") := "001",
        ("001", "0") := "001", ("001", "1") := "001"],
    "ε", {"001"})

  ghost function Contains001Expected(w: string): State
  {
    if HasInfix(w, "001") then "001"
    else if EndsWith(w, "00") then "00"
    else if EndsWith(w, "0") then "0"
    else "ε"
  }

  /** One row of contains_001's table. */
  lemma Contains001Step(q: State, c: char)
    requires q in Contains001.states && (c == '0' || c == '1')
    ensures (q, [c]) in Contains001.delta
    ensures Contains001.delta[(q, [c])] ==
            if q == "001" then "001"
            else if c == '1' then (if q == "00" then "001" else "ε")
            else if q == "0" || q == "00" then "00" else "0"
  {
    // One branch per row, so that the solver looks up one literal key of the table at a time.
    if c == '0' {
      if q == "ε" {} else if q == "0" {} else if q == "00" {} else {}
    } else {
      if q == "ε" {} else if q == "0" {} else if q == "00" {} else {}
    }
  }

  lemma {:induction false} Contains001State(w: string)
    requires Binary(w)
    ensures Defined(Contains001.delta, "ε", w)
    ensures Final(Contains001.delta, "ε", w) == Contains001Expected(w)
    decreases |w|
  {
    if w != [] {
      var u, c := w[..|w| - 1], w[|w| - 1];
      assert w == u + [c];
      Contains001State(u);
      Contains001Step(Contains001Expected(u), c);
      FinalSnoc(Contains001.delta, "ε", u, c);
      SuffixSteps(u, c);
      InfixSnoc(u, c, "001");
    }
  }

  /** contains_001 accepts exactly the words in which "001" occurs. */
  lemma Contains001Language(w: string)
    requires Binary(w)
    ensures Defined(Contains001.delta, Contains001.initial, w)
    ensures Accepts(Contains001, w) <==> HasInfix(w, "001")
  {
    Contains001State(w);
  }

  /** Once in state "001", the machine stays there whatever follows. */
  lemma {:induction false} Contains001Absorbing(w: string)
    requires Binary(w)
    ensures Defined(Contains001.delta, "001", w)
    ensures Final(Contains001.delta, "001", w) == "001"
    decreases |w|
  {
    if w != [] {
      Contains001Absorbing(w[1..]);
    }
  }

  /** The longest input dfa_examples.py runs through contains_001. */
  lemma Contains001On1010100()
    ensures Defined(Contains001.delta, Contains001.initial, "1010100") && !Accepts(Contains001, "1010100")
  {
  }

  lemma Contains001Verdicts()
    ensures Defined(Contains001.delta, Contains001.initial, "001") && Accepts(Contains001, "001")
    ensures Defined(Contains001.delta, Contains001.initial, "10011") && Accepts(Contains001, "10011")
    ensures Defined(Contains001.delta, Contains001.initial, "01") && !Accepts(Contains001, "01")
    ensures Defined(Contains001.delta, Contains001.initial, "1010100") && !Accepts(Contains001, "1010100")
  {
    Contains001On1010100();
  }

  // ---------------------------------------------------------------------
  // Example 8: arithmetic modulo n with a reset button 'r'

  /** The numerals of 0, ..., n - 1. */
  function Numerals(n: nat): set<string>
  {
    set k | 0 <= k < n :: Str(k)
  }

  /** `(x + y) % n` for `x, y < n`, written without division. */
  function AddMod(x: nat, y: nat, n: nat): (r: nat)
    requires x < n && y < n
    ensures r < n
  {
    if x + y < n then x + y else x + y - n
  }

  lemma MulBound(k: int, n: int)
    requires n > 0
    ensures k >= 1 ==> k * n >= n
    ensures k <= -1 ==> k * n <= -n
  {
    if k >= 1 {
      assert k * n == (k - 1) * n + n;
      assert (k - 1) * n >= 0;
    } else if k <= -1 {
      assert k * n == (k + 1) * n - n;
      assert (k + 1) * n <= 0;
    }
  }

  /** `AddMod` is Python's `(x + y) % n` on residues. */
  lemma AddModIsMod(x: nat, y: nat, n: nat)
    requires x < n && y < n
    ensures AddMod(x, y, n) == (x + y) % n
  {
    var r, q := (x + y) % n, (x + y) / n;
    assert x + y == q * n + r;
    MulBound(q, n);
    MulBound(q - 1, n);
    assert (q - 1) * n == q * n - n;
  }

  /** Reducing the running sum before adding a digit does not change the residue. */
  lemma ModAdd(s: nat, d: nat, n: nat)
    requires n >= 1
    ensures (s % n + d) % n == (s + d) % n
  {
    var r1, a := s % n, s / n;
    var r2, b := (s + d) % n, (s + d) / n;
    var r3, c := (r1 + d) % n, (r1 + d) / n;
    assert s == a * n + r1;
    assert s + d == b * n + r2;
    assert r1 + d == c * n + r3;
    assert (a + c - b) * n == a * n + c * n - b * n;
    MulBound(a + c - b, n);
  }

  /** The table sends numeral `i` on numeral `j` to the numeral of `(i + j) % n`. */
  predicate ModuloEntry(delta: map<(State, Symbol), State>, n: nat, i: nat, j: nat)
    requires i < n && j < n
  {
    (Str(i), Str(j)) in delta && delta[(Str(i), Str(j))] == Str(AddMod(i, j, n))
  }

  /** The table sends numeral `i` on 'r' to "0". */
  predicate ResetEntry(delta: map<(State, Symbol), State>, i: nat)
  {
    (Str(i), "r") in delta && delta[(Str(i), "r")] == "0"
  }

  /** A key of `DFA_modulo(n)`: a numeral below `n` with 'r' or a numeral below `n`. */
  ghost predicate ModuloKey(k: (State, Symbol), n: nat)
  {
    k.0 in Numerals(n) && (k.1 == "r" || k.1 in Numerals(n))
  }

  /**
   * The table `DFA_modulo(n)` fills: from every numeral `i < n`, 'r' goes to
   * "0" and the numeral `j < n` goes to the numeral of `(i + j) % n`
   * (see `AddModIsMod`), and no other key is present.
   */
  ghost predicate IsModuloTable(delta: map<(State, Symbol), State>, n: nat)
  {
    (forall i :: 0 <= i < n ==> ResetEntry(delta, i)) &&
    (forall i, j :: 0 <= i < n && 0 <= j < n ==> ModuloEntry(delta, n, i, j)) &&
    (forall k :: k in delta ==> ModuloKey(k, n))
  }

  lemma InNumerals(k: nat, n: nat)
    requires k < n
    ensures Str(k) in Numerals(n)
  {
  }

  /**
   * The loops of `DFA_modulo(n)` have written the 'r' entries of the rows
   * below `r`, and the digit entries of the rows below `i` and of the first
   * `j` columns of row `i`, and nothing else.
   */
  ghost predicate ModuloFilled(delta: map<(State, Symbol), State>, n: nat, r: nat, i: nat, j: nat)
  {
    (forall i' :: 0 <= i' < r ==> ResetEntry(delta, i')) &&
    (forall i', j' :: 0 <= i' < n && 0 <= j' < n && (i' < i || (i' == i && j' < j)) ==>
       ModuloEntry(delta, n, i', j')) &&
    (forall k :: k in delta ==> ModuloKey(k, n))
  }

  lemma ModuloFillReset(delta: map<(State, Symbol), State>, n: nat, i: nat)
    requires i < n && ModuloFilled(delta, n, i, i, 0)
    ensures ModuloFilled(delta[(Str(i), "r") := "0"], n, i + 1, i, 0)
  {
    InNumerals(i, n);
    var d' := delta[(Str(i), "r") := "0"];
    forall i' | 0 <= i' < i + 1 ensures ResetEntry(d', i') {
      if i' < i {
        assert ResetEntry(delta, i');
      }
    }
    forall i', j' | 0 <= i' < n && 0 <= j' < n && i' < i ensures ModuloEntry(d', n, i', j') {
      assert ModuloEntry(delta, n, i', j');
      StrNotReset(j');
    }
  }

  lemma ModuloFill(delta: map<(State, Symbol), State>, n: nat, i: nat, j: nat)
    requires i < n && j < n && ModuloFilled(delta, n, i + 1, i, j)
    ensures ModuloFilled(delta[(Str(i), Str(j)) := Str(AddMod(i, j, n))], n, i + 1, i, j + 1)
  {
    InNumerals(i, n);
    InNumerals(j, n);
    var d' := delta[(Str(i), Str(j)) := Str(AddMod(i, j, n))];
    forall i' | 0 <= i' < i + 1 ensures ResetEntry(d', i') {
      assert ResetEntry(delta, i');
      StrNotReset(j);
    }
    forall i', j' | 0 <= i' < n && 0 <= j' < n && (i' < i || (i' == i && j' < j + 1))
      ensures ModuloEntry(d', n, i', j')
    {
      if i' != i || j' != j {
        assert ModuloEntry(delta, n, i', j');
        StrInjective(i', i);
        StrInjective(j', j);
      }
    }
  }

  /**
   * `DFA_modulo(n)`: the states are the numerals below `n`, "0" is initial
   * and the only accepting state, and two nested loops fill the table.  The
   * alphabet is `None` in the source (the value of `set.add`), modelled as
   * the empty set, which the run never consults.
   */
  method BuildModulo(n: nat) returns (m: DFA)
    ensures m.states == Numerals(n) && m.alphabet == {}
    ensures m.initial == "0" && m.final == {"0"}
    ensures IsModuloTable(m.delta, n)
  {
    var delta: map<(State, Symbol), State> := map[];
    for i := 0 to n
      invariant ModuloFilled(delta, n, i, i, 0)
    {
      ModuloFillReset(delta, n, i);
      delta := delta[(Str(i), "r") := "0"];
      for j := 0 to n
        invariant ModuloFilled(delta, n, i + 1, i, j)
      {
        AddModIsMod(i, j, n);
        ModuloFill(delta, n, i, j);
        delta := delta[(Str(i), Str(j)) := Str((i + j) % n)];
      }
    }
    m := DFA(Numerals(n), {}, delta, "0", {"0"});
  }

  /** The input reads only 'r' and digits below `n`. */
  predicate ModuloInput(w: string, n: nat)
  {
    forall i :: 0 <= i < |w| ==> w[i] == 'r' || ('0' <= w[i] <= '9' && DigitValue(w[i]) < n)
  }

  lemma ModuloInputPrefix(w: string, n: nat)
    requires w != [] && ModuloInput(w, n)
    ensures ModuloInput(w[..|w| - 1], n)
  {
    var u := w[..|w| - 1];
    forall i | 0 <= i < |u| ensures u[i] == w[i] { }
  }

  /** The sum of the digits read since the last 'r' (or since the start). */
  function SumSinceReset(w: string): nat
    requires forall i :: 0 <= i < |w| ==> w[i] == 'r' || '0' <= w[i] <= '9'
  {
    if w == [] then 0
    else if w[|w| - 1] == 'r' then 0
    else SumSinceReset(w[..|w| - 1]) + DigitValue(w[|w| - 1])
  }

  /** The running residue, reduced after every digit as the table does. */
  function Residue(w: string, n: nat): (r: nat)
    requires n >= 1 && ModuloInput(w, n)
    ensures r < n
  {
    if w == [] then 0
    else if w[|w| - 1] == 'r' then 0
    else
      ModuloInputPrefix(w, n);
      AddMod(Residue(w[..|w| - 1], n), DigitValue(w[|w| - 1]), n)
  }

  /** The running residue is the digit sum since the last reset, modulo `n`. */
  lemma {:induction false} ResidueIsSum(w: string, n: nat)
    requires n >= 1 && ModuloInput(w, n)
    ensures Residue(w, n) == SumSinceReset(w) % n
    decreases |w|
  {
    if w != [] && w[|w| - 1] != 'r' {
      var u, d := w[..|w| - 1], DigitValue(w[|w| - 1]);
      ModuloInputPrefix(w, n);
      ResidueIsSum(u, n);
      AddModIsMod(Residue(u, n), d, n);
      ModAdd(SumSinceReset(u), d, n);
    }
  }

  /** The state after reading `w` is the numeral of the running residue. */
  lemma {:induction false} ResidueState(delta: map<(State, Symbol), State>, n: nat, w: string)
    requires n >= 1 && IsModuloTable(delta, n)
    requires ModuloInput(w, n)
    ensures Defined(delta, "0", w)
    ensures Final(delta, "0", w) == Str(Residue(w, n))
    decreases |w|
  {
    if w != [] {
      var u, c := w[..|w| - 1], w[|w| - 1];
      assert w == u + [c];
      ModuloInputPrefix(w, n);
      ResidueState(delta, n, u);
      FinalSnoc(delta, "0", u, c);
      if c == 'r' {
        assert [c] == "r";
        assert ResetEntry(delta, Residue(u, n));
      } else {
        DigitStr(c);
        assert ModuloEntry(delta, n, Residue(u, n), DigitValue(c));
      }
    }
  }

  /**
   * With `n >= 1`, the state after reading `w` is the numeral of the digit
   * sum since the last reset, modulo `n`.
   */
  lemma ModuloState(delta: map<(State, Symbol), State>, n: nat, w: string)
    requires n >= 1 && IsModuloTable(delta, n)
    requires ModuloInput(w, n)
    ensures Defined(delta, "0", w)
    ensures Final(delta, "0", w) == Str(SumSinceReset(w) % n)
  {
    ResidueState(delta, n, w);
    ResidueIsSum(w, n);
  }

  /** A reset sends every state back to "0". */
  lemma ModuloReset(delta: map<(State, Symbol), State>, n: nat, w: string)
    requires n >= 1 && IsModuloTable(delta, n)
    requires ModuloInput(w, n)
    ensures ModuloInput(w + "r", n)
    ensures Defined(delta, "0", w + "r") && Final(delta, "0", w + "r") == "0"
  {
    var v := w + "r";
    assert ModuloInput(v, n) by {
      forall i | 0 <= i < |v| ensures v[i] == 'r' || ('0' <= v[i] <= '9' && DigitValue(v[i]) < n) {
        if i < |w| { assert v[i] == w[i]; }
      }
    }
    ResidueState(delta, n, v);
  }

  /** A `DFA_modulo(n)` machine accepts iff the digit sum since the last reset is divisible by `n`. */
  lemma ModuloLanguage(m: DFA, n: nat, w: string)
    requires n >= 1 && m.initial == "0" && m.final == {"0"} && IsModuloTable(m.delta, n)
    requires ModuloInput(w, n)
    ensures Defined(m.delta, m.initial, w)
    ensures Accepts(m, w) <==> SumSinceReset(w) % n == 0
  {
    ModuloState(m.delta, n, w);
    StrInjective(SumSinceReset(w) % n, 0);
  }

  /** DFA_modulo(3) accepts "0111" and "012" and rejects "01r2". */
  lemma ModuloVerdicts(m: DFA)
    requires m.initial == "0" && m.final == {"0"} && IsModuloTable(m.delta, 3)
    ensures Defined(m.delta, m.initial, "0111") && Accepts(m, "0111")
    ensures Defined(m.delta, m.initial, "012") && Accepts(m, "012")
    ensures Defined(m.delta, m.initial, "01r2") && !Accepts(m, "01r2")
  {
    VerdictSums();
    ModuloLanguage(m, 3, "0111");
    ModuloLanguage(m, 3, "012");
    ModuloLanguage(m, 3, "01r2");
  }

  lemma VerdictSums()
    ensures SumSinceReset("0111") == 3 && SumSinceReset("012") == 3 && SumSinceReset("01r2") == 2
  {
    assert "0111"[..3] == "011" && "011"[..2] == "01" && "01"[..1] == "0" && "0"[..0] == "";
    assert "012"[..2] == "01" && "01r2"[..3] == "01r";
  }

  // ---------------------------------------------------------------------
  // Example 5: the six-floor elevator

  /** The elevator table: every floor `i` goes to floor `j` on button `j`, for i, j < 6. */
  ghost predicate IsElevatorTable(delta: map<(State, Symbol), State>)
  {
    (forall i, j :: 0 <= i < 6 && 0 <= j < 6 ==> (Str(i), Str(j)) in delta && delta[(Str(i), Str(j))] == Str(j)) &&
    (forall k :: k in delta ==> k.0 in Numerals(6) && k.1 in Numerals(6))
  }

  /** Rows before `i`, and the first `j` entries of row `i`, are written, and nothing else. */
  ghost predicate ElevatorFilled(delta: map<(State, Symbol), State>, i: nat, j: nat)
  {
    (forall i', j' :: 0 <= i' < 6 && 0 <= j' < 6 && (i' < i || (i' == i && j' < j)) ==>
       (Str(i'), Str(j')) in delta && delta[(Str(i'), Str(j'))] == Str(j')) &&
    (forall k :: k in delta ==> k.0 in Numerals(6) && k.1 in Numerals(6))
  }

  lemma ElevatorFill(delta: map<(State, Symbol), State>, i: nat, j: nat)
    requires i < 6 && j < 6 && ElevatorFilled(delta, i, j)
    ensures ElevatorFilled(delta[(Str(i), Str(j)) := Str(j)], i, j + 1)
  {
    InNumerals(i, 6);
    InNumerals(j, 6);
  }

  /** The nested loops that fill the elevator table. */
  method BuildElevator() returns (delta: map<(State, Symbol), State>)
    ensures IsElevatorTable(delta)
  {
    delta := map[];
    for i := 0 to 6
      invariant ElevatorFilled(delta, i, 0)
    {
      for j := 0 to 6
        invariant ElevatorFilled(delta, i, j)
      {
        ElevatorFill(delta, i, j);
        delta := delta[(Str(i), Str(j)) := Str(j)];
      }
    }
  }

  /** Every letter of `w` is a floor button '0' to '5'. */
  ghost predicate FloorButtons(w: string)
  {
    forall i :: 0 <= i < |w| ==> '0' <= w[i] <= '5'
  }

  /**
   * From any floor, a non-empty sequence of buttons ends on the floor of the
   * last button pressed.
   */
  lemma {:induction false} ElevatorLast(delta: map<(State, Symbol), State>, q: State, w: string)
    requires IsElevatorTable(delta)
    requires q in Numerals(6) && w != [] && FloorButtons(w)
    ensures Defined(delta, q, w)
    ensures Final(delta, q, w) == [w[|w| - 1]]
    decreases |w|
  {
    var u, c := w[..|w| - 1], w[|w| - 1];
    assert w == u + [c];
    DigitStr(c);
    FinalSnoc(delta, q, u, c);
    if u == [] {
      var k :| 0 <= k < 6 && Str(k) == q;
    } else {
      assert FloorButtons(u) by {
        forall i | 0 <= i < |u| ensures u[i] == w[i] { }
      }
      ElevatorLast(delta, q, u);
      DigitStr(u[|u| - 1]);
    }
  }

  /**
   * The elevator's accepting states are an empty dictionary, so the machine
   * reads every sequence of buttons to the end and accepts none of them.
   */
  lemma ElevatorAcceptsNothing(delta: map<(State, Symbol), State>, w: string)
    requires IsElevatorTable(delta) && FloorButtons(w)
    ensures Defined(delta, "0", w)
    ensures !Accepts(DFA(Numerals(6), Numerals(6), delta, "0", {}), w)
  {
    if w != [] {
      assert "0" == Str(0);
      ElevatorLast(delta, "0", w);
    }
  }
}
