/** The parts of the SQL-index API that work on what the index returned:
    the moment parameter of a query, and the checks and reshaping applied to
    the returned rows. The queries themselves are not part of this model. */
module WiseSql {
  import opened Wrappers
  import opened Json
  import opened Moments
  import opened ConfirmVotes

  // ---------------------------------------------------------------- decimal text

  predicate IsDigit(c: char)
  {
    '0' <= c <= '9'
  }

  predicate AllDigits(s: string)
  {
    forall i :: 0 <= i < |s| ==> IsDigit(s[i])
  }

  function Digit(d: nat): (c: char)
    requires d < 10
    ensures IsDigit(c) && (c == '0' <==> d == 0)
  {
    "0123456789"[d]
  }

  /** `String(n)` for a non-negative integer: its decimal digits. */
  function Decimal(n: nat): (s: string)
    ensures |s| >= 1 && AllDigits(s)
    ensures n == 0 ==> s == "0"
    ensures n > 0 ==> s[0] != '0'
  {
    if n < 10 then [Digit(n)] else Decimal(n / 10) + [Digit(n % 10)]
  }

  /** The number a string of decimal digits denotes. */
  function DigitsValue(s: string): nat
    requires AllDigits(s)
  {
    if s == [] then 0 else DigitsValue(s[..|s| - 1]) * 10 + (s[|s| - 1] as int - '0' as int)
  }

  function Pow10(k: nat): (p: nat)
    ensures p >= 1
  {
    if k == 0 then 1 else 10 * Pow10(k - 1)
  }

  /** Reading back the decimal text of n gives n. */
  lemma {:induction false} DecimalValue(n: nat)
    ensures DigitsValue(Decimal(n)) == n
  {
    if n >= 10 {
      var s := Decimal(n);
      assert s[..|s| - 1] == Decimal(n / 10);
      DecimalValue(n / 10);
    }
  }

  /** A string of k digits denotes less than 10^k. */
  lemma {:induction false} DigitsValueBound(s: string)
    requires AllDigits(s)
    ensures DigitsValue(s) < Pow10(|s|)
  {
    if s != [] {
      DigitsValueBound(s[..|s| - 1]);
    }
  }

  /** The value of a concatenation of digit strings. */
  lemma {:induction false} DigitsValueConcat(a: string, b: string)
    requires AllDigits(a) && AllDigits(b)
    ensures AllDigits(a + b)
    ensures DigitsValue(a + b) == DigitsValue(a) * Pow10(|b|) + DigitsValue(b)
  {
    if b != [] {
      var b' := b[..|b| - 1];
      var d := b[|b| - 1] as int - '0' as int;
      assert (a + b)[..|a + b| - 1] == a + b';
      assert (a + b)[|a + b| - 1] == b[|b| - 1];
      DigitsValueConcat(a, b');
      ShiftDigit(DigitsValue(a), DigitsValue(b'), Pow10(|b'|), d);
    } else {
      assert a + b == a;
    }
  }

  lemma ShiftDigit(x: int, y: int, p: int, d: int)
    ensures (x * p + y) * 10 + d == x * (p * 10) + (y * 10 + d)
  {
  }

  /** `s.slice(-4)`: the last four characters (all of s when it is shorter). */
  function SliceLast4(s: string): (r: string)
    ensures |r| == if |s| <= 4 then |s| else 4
    ensures r == s[|s| - |r|..]
  {
    if |s| <= 4 then s else s[|s| - 4..]
  }

  /** `("000" + n).slice(-4)` is four digits denoting n modulo 10000: the
      number zero-padded to four digits, or its last four digits. */
  lemma PaddedTransactionNum(n: nat)
    ensures |SliceLast4("000" + Decimal(n))| == 4
    ensures AllDigits(SliceLast4("000" + Decimal(n)))
    ensures DigitsValue(SliceLast4("000" + Decimal(n))) == n % 10000
  {
    PaddedDigits(Decimal(n));
    DecimalValue(n);
  }

  /** Padding any digit string with three zeros and keeping the last four
      characters gives four digits worth its value modulo 10000. */
  lemma PaddedDigits(d: string)
    requires |d| >= 1 && AllDigits(d)
    ensures |SliceLast4("000" + d)| == 4
    ensures AllDigits(SliceLast4("000" + d))
    ensures DigitsValue(SliceLast4("000" + d)) == DigitsValue(d) % 10000
  {
    var s := "000" + d;
    var pre, suf := s[..|s| - 4], s[|s| - 4..];
    assert SliceLast4(s) == suf;
    assert s == pre + suf;
    ZeroPrefixValue(d);
    DigitsValueConcat(pre, suf);
    DigitsValueBound(suf);
    assert Pow10(4) == 10000;
    SplitModulo(DigitsValue(pre), DigitsValue(suf));
  }

  /** Leading zeros do not change the value. */
  lemma ZeroPrefixValue(d: string)
    requires AllDigits(d)
    ensures AllDigits("000" + d) && DigitsValue("000" + d) == DigitsValue(d)
  {
    assert DigitsValue("0") == 0 by { assert "0"[..0] == ""; }
    assert DigitsValue("00") == 0 by { assert "00"[..1] == "0"; }
    assert DigitsValue("000") == 0 by { assert "000"[..2] == "00"; }
    DigitsValueConcat("000", d);
  }

  lemma SplitModulo(q: nat, r: nat)
    requires r < 10000
    ensures (q * 10000 + r) % 10000 == r
  {
  }

  // ---------------------------------------------------------------- moments

  const FutureText: string := "99999999999999.0000"

  /** `formatMoment`: `<blockNum>.<transactionNum as four digits>`, or the
      fourteen-nines text for any moment in FUTURE's block. `future` is
      SteemOperationNumber.FUTURE, whose definition is not part of this model. */
  function FormatMoment(m: Moment, future: Moment): (s: string)
    ensures m.blockNum == future.blockNum ==> s == FutureText
    ensures m.blockNum != future.blockNum ==>
      && |s| >= 6
      && s[..|s| - 5] == Decimal(m.blockNum)
      && s[|s| - 5] == '.'
      && AllDigits(s[|s| - 4..])
      && DigitsValue(s[|s| - 4..]) == m.transactionNum % 10000
  {
    if m.blockNum == future.blockNum then
      FutureText
    else
      PaddedTransactionNum(m.transactionNum);
      var s := Decimal(m.blockNum) + "." + SliceLast4("000" + Decimal(m.transactionNum));
      assert s[..|s| - 5] == Decimal(m.blockNum);
      assert s[|s| - 4..] == SliceLast4("000" + Decimal(m.transactionNum));
      s
  }

  /** A transaction number below 10000 is written with exactly four digits,
      zero-padded: 5 becomes "0005". */
  lemma SmallTransactionNumPadded()
    ensures SliceLast4("000" + Decimal(5)) == "0005"
  {
  }

  /** The operation number never reaches the text. */
  lemma FormatIgnoresOperationNum(m: Moment, future: Moment, op: nat)
    ensures FormatMoment(m.(operationNum := op), future) == FormatMoment(m, future)
  {
  }

  /** Outside FUTURE's block the text determines the block number and the
      transaction number modulo 10000. */
  lemma FormatMomentInjective(m1: Moment, m2: Moment, future: Moment)
    requires m1.blockNum != future.blockNum && m2.blockNum != future.blockNum
    ensures FormatMoment(m1, future) == FormatMoment(m2, future) ==>
      m1.blockNum == m2.blockNum && m1.transactionNum % 10000 == m2.transactionNum % 10000
  {
    DecimalValue(m1.blockNum);
    DecimalValue(m2.blockNum);
  }

  // ---------------------------------------------------------------- rows

  /** One row the index returns (EffectuatedWiseOperation): the moment and
      accounts of a wise operation and its decoded command object. */
  datatype Row = Row(moment: Moment, voter: string, delegator: string, command: JsObject)

  /** SetRules (`{rulesets}`) or EffectuatedSetRules (`{moment, voter, rulesets}`). */
  datatype SetRulesResult<R> =
    | SetRules(rulesets: seq<R>)
    | EffectuatedSetRules(moment: Moment, voter: string, rulesets: seq<R>)

  /** The errors thrown while checking the rows. */
  datatype ApiError =
    | TooManyRows               // "Too many rows returned from server"
    | NotSetRules(row: Row)     // the row's command is not a SetRules
    | InvalidRowCount           // "Invalid number of rows returned ..."
    | NotConfirmVote(command: JsObject)

  function Prototyped<R, P>(rulesets: seq<R>, prototype: R -> P): (ps: seq<P>)
    ensures |ps| == |rulesets| && forall i :: 0 <= i < |rulesets| ==> ps[i] == prototype(rulesets[i])
  {
    seq(|rulesets|, i requires 0 <= i < |rulesets| => prototype(rulesets[i]))
  }

  /** `loadRulesets` after the query: no row means no rules, more than one
      row is an error, and the one row must hold a SetRules. `asSetRules`
      stands for `SetRules.isSetRules` with the `rulesets` it guards;
      `prototype` stands for `RulePrototyper.prototypeRuleset`. Neither is part
      of this model. */
  function LoadRulesets<R, P>(rows: seq<Row>, asSetRules: JsObject -> Option<seq<R>>, prototype: R -> P)
    : (res: Result<SetRulesResult<P>, ApiError>)
    ensures res.Success? <==> |rows| == 0 || (|rows| == 1 && asSetRules(rows[0].command).Some?)
    ensures |rows| == 0 ==> res == Success(SetRules([]))
    ensures |rows| > 1 ==> res == Failure(TooManyRows)
    ensures |rows| == 1 && asSetRules(rows[0].command).None? ==> res == Failure(NotSetRules(rows[0]))
    ensures |rows| == 1 && res.Success? ==>
      var raw := asSetRules(rows[0].command).value;
      && res.value.EffectuatedSetRules?
      && res.value.moment == rows[0].moment && res.value.voter == rows[0].voter
      && |res.value.rulesets| == |raw|
      && forall i :: 0 <= i < |raw| ==> res.value.rulesets[i] == prototype(raw[i])
  {
    if |rows| == 0 then Success(SetRules([]))
    else if |rows| > 1 then Failure(TooManyRows)
    else match asSetRules(rows[0].command)
      case None => Failure(NotSetRules(rows[0]))
      case Some(rulesets) =>
        Success(EffectuatedSetRules(rows[0].moment, rows[0].voter, Prototyped(rulesets, prototype)))
  }

  /** The shared body of `ops.map(...)` in `loadAllRulesets`: row i becomes an
      EffectuatedSetRules carrying its own prototyped rulesets and the moment
      and voter of `stamps[i]`; the first row that is not a SetRules throws. */
  function StampedRulesets<R, P>(rows: seq<Row>, stamps: seq<Row>, asSetRules: JsObject -> Option<seq<R>>, prototype: R -> P)
    : (res: Result<seq<SetRulesResult<P>>, ApiError>)
    requires |stamps| == |rows|
    ensures res.Success? <==> forall i :: 0 <= i < |rows| ==> asSetRules(rows[i].command).Some?
    ensures res.Failure? ==> exists i :: (0 <= i < |rows|
      && res.error == NotSetRules(rows[i]) && asSetRules(rows[i].command).None?
      && forall j :: 0 <= j < i ==> asSetRules(rows[j].command).Some?)
    ensures res.Success? ==> |res.value| == |rows| && forall i :: 0 <= i < |rows| ==>
      res.value[i] == EffectuatedSetRules(stamps[i].moment, stamps[i].voter,
                                          Prototyped(asSetRules(rows[i].command).value, prototype))
  {
    if rows == [] then Success([])
    else match asSetRules(rows[0].command)
      case None =>
        Failure(NotSetRules(rows[0]))
      case Some(rulesets) =>
        var head := EffectuatedSetRules(stamps[0].moment, stamps[0].voter, Prototyped(rulesets, prototype));
        match StampedRulesets(rows[1..], stamps[1..], asSetRules, prototype)
        case Failure(e) =>
          var i :| 0 <= i < |rows| - 1 && e == NotSetRules(rows[1..][i]) && asSetRules(rows[1..][i].command).None?
            && forall j :: 0 <= j < i ==> asSetRules(rows[1..][j].command).Some?;
          assert forall j :: 0 <= j < i + 1 ==> asSetRules(rows[j].command).Some? by {
            forall j | 0 <= j < i + 1 ensures asSetRules(rows[j].command).Some? {
              if j > 0 { assert rows[j] == rows[1..][j - 1]; }
            }
          }
          Failure(e)
        case Success(rest) =>
          assert forall i :: 1 <= i < |rows| ==> asSetRules(rows[i].command).Some? by {
            forall i | 1 <= i < |rows| ensures asSetRules(rows[i].command).Some? {
              assert rows[i] == rows[1..][i - 1];
            }
          }
          Success([head] + rest)
  }

  /** `loadAllRulesets` as written: every entry carries the moment and voter
      of the FIRST row (`ops[0]`), whichever row its rulesets came from. */
  function LoadAllRulesets<R, P>(rows: seq<Row>, asSetRules: JsObject -> Option<seq<R>>, prototype: R -> P)
    : (res: Result<seq<SetRulesResult<P>>, ApiError>)
    ensures res.Success? <==> forall i :: 0 <= i < |rows| ==> asSetRules(rows[i].command).Some?
    ensures res.Success? ==> |res.value| == |rows| && forall i :: 0 <= i < |rows| ==>
      && res.value[i].EffectuatedSetRules?
      && res.value[i].moment == rows[0].moment && res.value[i].voter == rows[0].voter
      && res.value[i].rulesets == Prototyped(asSetRules(rows[i].command).value, prototype)
  {
    StampedRulesets(rows, seq(|rows|, i requires 0 <= i < |rows| => rows[0]), asSetRules, prototype)
  }

  /** `loadAllRulesets` as evidently intended: each entry carries its own
      row's moment and voter. */
  function LoadAllRulesetsPerRow<R, P>(rows: seq<Row>, asSetRules: JsObject -> Option<seq<R>>, prototype: R -> P)
    : (res: Result<seq<SetRulesResult<P>>, ApiError>)
    ensures res.Success? <==> forall i :: 0 <= i < |rows| ==> asSetRules(rows[i].command).Some?
    ensures res.Success? ==> |res.value| == |rows| && forall i :: 0 <= i < |rows| ==>
      && res.value[i].EffectuatedSetRules?
      && res.value[i].moment == rows[i].moment && res.value[i].voter == rows[i].voter
      && res.value[i].rulesets == Prototyped(asSetRules(rows[i].command).value, prototype)
  {
    StampedRulesets(rows, rows, asSetRules, prototype)
  }

  /** Two SetRules rows for different voters at different moments: as
      written, the second entry reports the first row's voter and moment. */
  lemma LoadAllRulesetsMislabelsLaterRows()
    ensures
      var rows := [Row(Moment(20, 1, 0), "bob", "alice", map[]), Row(Moment(10, 3, 0), "carol", "alice", map[])];
      var res := LoadAllRulesets(rows, (_: JsObject) => Some([1]), (r: int) => r);
      && res.Success?
      && res.value[1].moment == Moment(20, 1, 0) != rows[1].moment
      && res.value[1].voter == "bob" != rows[1].voter
  {
  }

  /** `getLastConfirmationMoment` after the query: exactly one row, holding a
      confirm_vote, whose moment is the answer. */
  function LastConfirmationMoment(rows: seq<Row>): (res: Result<Moment, ApiError>)
    ensures res.Success? <==> |rows| == 1 && IsConfirmVote(rows[0].command)
    ensures res.Success? ==> res.value == rows[0].moment
    ensures |rows| != 1 ==> res == Failure(InvalidRowCount)
    ensures |rows| == 1 && !IsConfirmVote(rows[0].command) ==> res == Failure(NotConfirmVote(rows[0].command))
  {
    if |rows| != 1 then Failure(InvalidRowCount)
    else if !IsConfirmVote(rows[0].command) then Failure(NotConfirmVote(rows[0].command))
    else Success(rows[0].moment)
  }
}
