/**
 * Setting up an expression over columns: a `?` followed by digits refers to
 * a column. From the expression text the program
 *   - collects the column numbers, one per match of the pattern `\?([0-9]*)`,
 *     in order of appearance, parsing each digit run as a `u32` (a failed
 *     parse aborts the program);
 *   - rewrites every `?` to `_`, so that `?3` becomes the identifier `_3`;
 *   - names one variable `_<n>` per collected column.
 * The regular expression is modelled by a direct scan of that one pattern.
 */
module Placeholders {
  import opened Wrappers
  import opened Strings
  import opened Decimal

  /** Length of the run of digits that starts at index `j` (the greedy `[0-9]*`). */
  function DigitRun(s: string, j: nat): (n: nat)
    requires j <= |s|
    ensures j + n <= |s|
    ensures forall t :: j <= t < j + n ==> IsDigit(s[t])
    ensures j + n == |s| || !IsDigit(s[j + n])
    decreases |s| - j
  {
    if j < |s| && IsDigit(s[j]) then 1 + DigitRun(s, j + 1) else 0
  }

  /** The digit run that follows the `?` at index `p`. */
  function RunAfter(s: string, p: nat): (run: string)
    requires p < |s|
    ensures AllDigits(run)
  {
    var run := s[p + 1..p + 1 + DigitRun(s, p + 1)];
    assert forall t :: 0 <= t < |run| ==> run[t] == s[p + 1 + t];
    run
  }

  /**
   * `captures_iter` of `\?([0-9]*)` on `s`, searching from index `i`: the
   * captured digit run of every match, in order. A match starts at the next
   * `?`, and the search resumes where the match ended.
   */
  function CapturesFrom(s: string, i: nat): (caps: seq<string>)
    requires i <= |s|
    ensures forall k :: 0 <= k < |caps| ==> AllDigits(caps[k])
    decreases |s| - i
  {
    if i == |s| then []
    else if s[i] == '?' then
      var n := DigitRun(s, i + 1);
      assert AllDigits(s[i + 1..i + 1 + n]);
      [s[i + 1..i + 1 + n]] + CapturesFrom(s, i + 1 + n)
    else CapturesFrom(s, i + 1)
  }

  /** Reference: the indices of the `?` characters of `s` from index `i` on. */
  function MarksFrom(s: string, i: nat): (ps: seq<nat>)
    requires i <= |s|
    ensures forall k :: 0 <= k < |ps| ==> i <= ps[k] < |s| && s[ps[k]] == '?'
    decreases |s| - i
  {
    if i == |s| then []
    else if s[i] == '?' then [i] + MarksFrom(s, i + 1)
    else MarksFrom(s, i + 1)
  }

  /** `MarksFrom` lists the `?` indices in increasing order. */
  lemma {:induction false} MarksIncrease(s: string, i: nat)
    requires i <= |s|
    ensures forall k, l :: 0 <= k < l < |MarksFrom(s, i)| ==> MarksFrom(s, i)[k] < MarksFrom(s, i)[l]
    decreases |s| - i
  {
    if i < |s| {
      MarksIncrease(s, i + 1);
    }
  }

  /** `MarksFrom` misses no `?` from index `i` on. */
  lemma {:induction false} MarksComplete(s: string, i: nat)
    requires i <= |s|
    ensures forall j :: i <= j < |s| && s[j] == '?' ==> j in MarksFrom(s, i)
    decreases |s| - i
  {
    if i < |s| {
      MarksComplete(s, i + 1);
    }
  }

  /** There are as many marks as the text holds `?` characters. */
  lemma {:induction false} MarksCount(s: string, i: nat)
    requires i <= |s|
    ensures |MarksFrom(s, i)| == multiset(s[i..])['?']
    decreases |s| - i
  {
    if i < |s| {
      MarksCount(s, i + 1);
      assert s[i..] == [s[i]] + s[i + 1..];
      assert multiset(s[i..]) == multiset{s[i]} + multiset(s[i + 1..]);
    }
  }

  /** Skipping a run of digits skips no `?`. */
  lemma {:induction false} MarksSkipDigits(s: string, j: nat, m: nat)
    requires j + m <= |s| && forall t :: j <= t < j + m ==> IsDigit(s[t])
    ensures MarksFrom(s, j) == MarksFrom(s, j + m)
    decreases m
  {
    if m > 0 {
      MarksSkipDigits(s, j + 1, m - 1);
    }
  }

  /** The digit runs after the `?` characters at the given indices. */
  function RunsAfter(s: string, ps: seq<nat>): (runs: seq<string>)
    requires forall k :: 0 <= k < |ps| ==> ps[k] < |s|
    ensures |runs| == |ps|
  {
    if ps == [] then [] else [RunAfter(s, ps[0])] + RunsAfter(s, ps[1..])
  }

  lemma {:induction false} RunsAfterAt(s: string, ps: seq<nat>, k: nat)
    requires forall k :: 0 <= k < |ps| ==> ps[k] < |s|
    requires k < |ps|
    ensures RunsAfter(s, ps)[k] == RunAfter(s, ps[k])
  {
    if k > 0 {
      RunsAfterAt(s, ps[1..], k - 1);
    }
  }

  /**
   * One capture per `?`, in order: the `k`-th capture is the maximal digit
   * run after the `k`-th `?`.
   */
  lemma {:induction false} CapturesAreRunsAfterMarks(s: string, i: nat)
    requires i <= |s|
    ensures CapturesFrom(s, i) == RunsAfter(s, MarksFrom(s, i))
    decreases |s| - i
  {
    if i < |s| {
      if s[i] == '?' {
        var j := i + 1 + DigitRun(s, i + 1);
        CapturesAreRunsAfterMarks(s, j);
        MarksAtMark(s, i);
        RunsAfterCons(s, i, MarksFrom(s, j));
        assert CapturesFrom(s, i) == [RunAfter(s, i)] + CapturesFrom(s, j);
      } else {
        CapturesAreRunsAfterMarks(s, i + 1);
        assert CapturesFrom(s, i) == CapturesFrom(s, i + 1);
        assert MarksFrom(s, i) == MarksFrom(s, i + 1);
      }
    }
  }

  /** At a `?`, the marks are that index followed by the marks after its digit run. */
  lemma MarksAtMark(s: string, i: nat)
    requires i < |s| && s[i] == '?'
    ensures MarksFrom(s, i) == [i] + MarksFrom(s, i + 1 + DigitRun(s, i + 1))
  {
    MarksSkipDigits(s, i + 1, DigitRun(s, i + 1));
  }

  lemma RunsAfterCons(s: string, p: nat, ps: seq<nat>)
    requires p < |s| && forall k :: 0 <= k < |ps| ==> ps[k] < |s|
    ensures RunsAfter(s, [p] + ps) == [RunAfter(s, p)] + RunsAfter(s, ps)
  {
    assert ([p] + ps)[1..] == ps;
  }

  /**
   * `.map(|col| col.parse::<u32>().unwrap()).collect()`: all parsed values,
   * or the error of the first capture that fails to parse.
   */
  function ParseAll(caps: seq<string>): (r: Result<seq<nat>, IntErrorKind>)
    requires forall k :: 0 <= k < |caps| ==> AllDigits(caps[k])
    ensures r.Ok? <==> forall k :: 0 <= k < |caps| ==> ParseU32(caps[k]).Ok?
    ensures r.Ok? ==> |r.value| == |caps| && forall k :: 0 <= k < |caps| ==> ParseU32(caps[k]) == Ok(r.value[k])
    ensures r.Err? ==> exists k :: 0 <= k < |caps| && ParseU32(caps[k]) == Err(r.error) && ParsesBefore(caps, k)
  {
    if caps == [] then Ok([])
    else match ParseU32(caps[0])
      case Err(e) =>
        assert ParsesBefore(caps, 0);
        Err(e)
      case Ok(v) =>
        match ParseAll(caps[1..])
        case Err(e) =>
          assert exists k :: 0 <= k < |caps| && ParseU32(caps[k]) == Err(e) && ParsesBefore(caps, k) by {
            var k :| 0 <= k < |caps[1..]| && ParseU32(caps[1..][k]) == Err(e) && ParsesBefore(caps[1..], k);
            assert ParsesBefore(caps, k + 1) by {
              forall j | 0 <= j < k + 1 ensures ParseU32(caps[j]).Ok? {
                if j > 0 { assert caps[j] == caps[1..][j - 1]; }
              }
            }
            assert ParseU32(caps[k + 1]) == Err(e);
          }
          Err(e)
        case Ok(vs) =>
          assert forall k :: 1 <= k < |caps| ==> caps[k] == caps[1..][k - 1];
          Ok([v] + vs)
  }

  /** Parsing a capture in front of others. */
  lemma ParseAllCons(c: string, cs: seq<string>, v: nat, vs: seq<nat>)
    requires AllDigits(c) && forall k :: 0 <= k < |cs| ==> AllDigits(cs[k])
    requires ParseU32(c) == Ok(v) && ParseAll(cs) == Ok(vs)
    ensures ParseAll([c] + cs) == Ok([v] + vs)
  {
    assert ([c] + cs)[1..] == cs;
  }

  /** Every capture before index `k` parses. */
  predicate ParsesBefore(caps: seq<string>, k: nat)
    requires k < |caps| && forall j :: 0 <= j < |caps| ==> AllDigits(caps[j])
  {
    forall j :: 0 <= j < k ==> ParseU32(caps[j]).Ok?
  }

  /** The `?` indices of the whole expression. */
  function Marks(expr: string): seq<nat> {
    MarksFrom(expr, 0)
  }

  /** The captures of the whole expression are the digit runs after its marks, one each. */
  lemma CapturesAtMarks(expr: string)
    ensures |CapturesFrom(expr, 0)| == |Marks(expr)|
    ensures forall k :: 0 <= k < |Marks(expr)| ==> CapturesFrom(expr, 0)[k] == RunAfter(expr, Marks(expr)[k])
  {
    var ps := Marks(expr);
    CapturesAreRunsAfterMarks(expr, 0);
    forall k | 0 <= k < |ps| ensures CapturesFrom(expr, 0)[k] == RunAfter(expr, ps[k]) {
      RunsAfterAt(expr, ps, k);
    }
  }

  /**
   * The column numbers the expression names: defined exactly when
   * every `?` is followed by a digit run that parses as a `u32`, and then one
   * column per `?`, in order of appearance, each the value of the run after
   * its `?`.
   */
  function Columns(expr: string): (r: Result<seq<nat>, IntErrorKind>)
    ensures r.Ok? <==> forall k :: 0 <= k < |Marks(expr)| ==> ParseU32(RunAfter(expr, Marks(expr)[k])).Ok?
    ensures r.Ok? ==> |r.value| == |Marks(expr)|
    ensures r.Ok? ==> forall k :: 0 <= k < |Marks(expr)| ==> ParseU32(RunAfter(expr, Marks(expr)[k])) == Ok(r.value[k])
  {
    CapturesAtMarks(expr);
    ParseAll(CapturesFrom(expr, 0))
  }

  /** `format!("_{}", col)`: the identifier bound to column `col`; its digits read back as `col`. */
  function VarName(col: nat): (name: string)
    ensures |name| >= 2 && name[0] == '_'
    ensures AllDigits(name[1..]) && Canonical(name[1..]) && Value(name[1..]) == col
  {
    var name := "_" + ToDecimal(col);
    assert name[1..] == ToDecimal(col);
    name
  }

  /** One variable name per column, in the same order. */
  function VarNames(cols: seq<nat>): (names: seq<string>)
    ensures |names| == |cols|
    ensures forall k :: 0 <= k < |cols| ==> names[k] == VarName(cols[k])
  {
    if cols == [] then [] else [VarName(cols[0])] + VarNames(cols[1..])
  }

  /** What the expression set-up computes. */
  datatype Prepared = Prepared(columns: seq<nat>, expression: string, variables: seq<string>)

  /**
   * The columns, the expression with every `?` replaced by `_`, and the
   * variable names; a digit run that fails to parse aborts before the rewrite.
   */
  function Prepare(expr: string): (r: Result<Prepared, IntErrorKind>)
    ensures r.Ok? <==> Columns(expr).Ok?
    ensures r.Err? ==> r.error == Columns(expr).error
    ensures r.Ok? ==> r.value.columns == Columns(expr).value
    ensures r.Ok? ==> |r.value.variables| == |r.value.columns| && |r.value.expression| == |expr|
  {
    match Columns(expr)
    case Err(e) => Err(e)
    case Ok(cols) =>
      ReplaceCharPointwise(expr, '?', '_');
      Ok(Prepared(cols, Replace(expr, "?", "_"), VarNames(cols)))
  }

  /**
   * Set-up succeeds exactly when every `?` is followed by at least one digit
   * and those digits denote at most `u32::MAX`.
   */
  lemma PrepareSucceeds(expr: string)
    ensures Prepare(expr).Ok? <==>
      forall k :: 0 <= k < |Marks(expr)| ==>
        |RunAfter(expr, Marks(expr)[k])| >= 1 && Value(RunAfter(expr, Marks(expr)[k])) <= U32_MAX
  {
  }

  /**
   * On success there is one column per `?` of the expression (duplicates
   * kept), the `k`-th being the value of the digits after the `k`-th `?`, and
   * the `k`-th variable is `_` followed by the `k`-th column in decimal.
   */
  lemma PrepareColumns(expr: string)
    requires Prepare(expr).Ok?
    ensures var p := Prepare(expr).value;
      && |p.columns| == multiset(expr)['?']
      && (forall k :: 0 <= k < |p.columns| ==> p.columns[k] == Value(RunAfter(expr, Marks(expr)[k])))
      && (forall k :: 0 <= k < |p.columns| ==> p.variables[k] == VarName(p.columns[k]))
  {
    MarksCount(expr, 0);
    assert expr[0..] == expr;
  }

  /**
   * A failed set-up reports the parse error of the first `?` whose digit run
   * does not parse: `Empty` for a `?` without digits, `PosOverflow` for a
   * number above `u32::MAX`.
   */
  lemma PrepareFailure(expr: string)
    requires Prepare(expr).Err?
    ensures exists k :: (0 <= k < |Marks(expr)| && ParseU32(RunAfter(expr, Marks(expr)[k])) == Err(Prepare(expr).error) &&
      (forall j :: 0 <= j < k ==> ParseU32(RunAfter(expr, Marks(expr)[j])).Ok?))
  {
    var ps := Marks(expr);
    var caps := CapturesFrom(expr, 0);
    var e := Prepare(expr).error;
    CapturesAtMarks(expr);
    assert ParseAll(caps) == Err(e);
    var k :| 0 <= k < |caps| && ParseU32(caps[k]) == Err(e) && ParsesBefore(caps, k);
    assert ParseU32(RunAfter(expr, ps[k])) == Err(e) by {
      assert caps[k] == RunAfter(expr, ps[k]);
    }
    forall j | 0 <= j < k
      ensures ParseU32(RunAfter(expr, ps[j])).Ok?
    {
      assert caps[j] == RunAfter(expr, ps[j]);
      assert ParseU32(caps[j]).Ok?;
    }
  }

  /**
   * The rewritten expression has the length of the original, contains no `?`,
   * has `_` wherever the original had `?`, and is unchanged elsewhere.
   */
  lemma RewriteMarks(expr: string)
    requires Prepare(expr).Ok?
    ensures var e := Prepare(expr).value.expression;
      && '?' !in e
      && forall i :: 0 <= i < |expr| ==> e[i] == if expr[i] == '?' then '_' else expr[i]
  {
    ReplaceCharPointwise(expr, '?', '_');
  }

  /**
   * Where the digits after the `k`-th `?` have no leading zero, the rewritten
   * expression holds that column's variable name exactly where the
   * placeholder was.
   */
  lemma VariableAtPlaceholder(expr: string, p: Prepared, k: nat)
    requires Prepare(expr) == Ok(p) && k < |p.variables|
    requires Canonical(RunAfter(expr, Marks(expr)[k]))
    ensures PlacedAt(p.expression, Marks(expr)[k], p.variables[k])
  {
    PreparedAt(expr, p, k);
    VariableAtMark(expr, Marks(expr)[k], p.expression, p.columns[k], p.variables[k]);
  }

  /** `name` occurs in `e` starting at index `at`. */
  predicate PlacedAt(e: string, at: nat, name: string) {
    at + |name| <= |e| && e[at..at + |name|] == name
  }

  /** What a successful set-up holds for its `k`-th placeholder. */
  lemma PreparedAt(expr: string, p: Prepared, k: nat)
    requires Prepare(expr) == Ok(p) && k < |p.variables|
    ensures k < |Marks(expr)| && k < |p.columns|
    ensures Marks(expr)[k] < |expr| && expr[Marks(expr)[k]] == '?' && |p.expression| == |expr|
    ensures forall i :: 0 <= i < |expr| ==> p.expression[i] == if expr[i] == '?' then '_' else expr[i]
    ensures ParseU32(RunAfter(expr, Marks(expr)[k])) == Ok(p.columns[k])
    ensures p.variables[k] == VarName(p.columns[k])
  {
    PrepareParts(expr);
    RewriteMarks(expr);
  }

  /**
   * In a text rewritten `?` to `_`, the variable of a column read from a
   * canonical digit run sits where the `?` before that run was.
   */
  lemma VariableAtMark(expr: string, at: nat, e: string, col: nat, name: string)
    requires at < |expr| && expr[at] == '?' && |e| == |expr|
    requires forall i :: 0 <= i < |expr| ==> e[i] == if expr[i] == '?' then '_' else expr[i]
    requires Canonical(RunAfter(expr, at)) && ParseU32(RunAfter(expr, at)) == Ok(col)
    requires name == VarName(col)
    ensures PlacedAt(e, at, name)
  {
    var run := RunAfter(expr, at);
    VarNameOfRun(run, col);
    RenamedPlaceholder(expr, at, e);
  }

  /** The three parts of a successful set-up. */
  lemma PrepareParts(expr: string)
    requires Prepare(expr).Ok?
    ensures var cols := Columns(expr).value;
      Prepare(expr).value == Prepared(cols, Replace(expr, "?", "_"), VarNames(cols))
  {
  }

  /** The variable for the value of a digit run without leading zero is `_` followed by that run. */
  lemma VarNameOfRun(run: string, col: nat)
    requires AllDigits(run) && Canonical(run) && Value(run) == col
    ensures VarName(col) == "_" + run
  {
    ToDecimalOfValue(run);
  }

  /** In the rewritten text, the `?` at `at` and its digit run read `_` followed by the run. */
  lemma RenamedPlaceholder(expr: string, at: nat, e: string)
    requires at < |expr| && expr[at] == '?' && |e| == |expr|
    requires forall i :: 0 <= i < |expr| ==> e[i] == if expr[i] == '?' then '_' else expr[i]
    ensures at + 1 + |RunAfter(expr, at)| <= |e|
    ensures e[at..at + 1 + |RunAfter(expr, at)|] == "_" + RunAfter(expr, at)
  {
    var n := DigitRun(expr, at + 1);
    var run := RunAfter(expr, at);
    forall t | 0 <= t < 1 + n ensures e[at..at + 1 + n][t] == ("_" + run)[t] {
      if t > 0 {
        assert IsDigit(expr[at + t]);
        assert run[t - 1] == expr[at + t];
      }
    }
  }

  /**
   * With a leading zero the two disagree: `?03` refers to column 3 and is
   * rewritten to `_03`, but the variable is named `_3`, which does not occur
   * in the rewritten expression.
   */
  lemma LeadingZeroMismatch()
    ensures Prepare("?03") == Ok(Prepared([3], "_03", ["_3"]))
    ensures !Contains("_03", "_3")
  {
    LeadingZeroColumns();
    LeadingZeroRewrite();
    NameOfThree();
    LeadingZeroAbsent();
  }

  lemma LeadingZeroAbsent()
    ensures !Contains("_03", "_3")
  {
    assert !OccursAt("_03", 0, "_3") by { assert "_03"[0..2] == "_0"; }
    assert !OccursAt("_03", 1, "_3") by { assert "_03"[1..3] == "03"; }
  }

  /** Column 3 is named `_3`. */
  lemma NameOfThree()
    ensures VarNames([3]) == ["_3"]
  {
    assert VarName(3) == "_3";
    assert [3][1..] == [];
  }

  lemma LeadingZeroRewrite()
    ensures Replace("?03", "?", "_") == "_03"
  {
    ReplaceCharPointwise("?03", '?', '_');
    var r := Replace("?03", "?", "_");
    assert r[0] == '_' && r[1] == '0' && r[2] == '3';
  }

  lemma LeadingZeroColumns()
    ensures Columns("?03") == Ok([3])
  {
    var s := "?03";
    assert DigitRun(s, 3) == 0;
    assert DigitRun(s, 2) == 1;
    assert DigitRun(s, 1) == 2;
    assert CapturesFrom(s, 3) == [];
    assert CapturesFrom(s, 0) == [s[1..3]] + CapturesFrom(s, 3);
    assert s[1..3] == "03";
    assert Value("0") == 0;
    assert Value("03") == 3 by { assert "03"[..1] == "0"; }
    assert ParseU32("03") == Ok(3);
    ParseAllCons("03", [], 3, []);
    assert ["03"] + [] == ["03"] && [3] + [] == [3];
  }

  /**
   * Without a leading zero the two agree: `?3` is rewritten to `_3`, the
   * variable is `_3`, and it sits where the placeholder was.
   */
  lemma PlainPlaceholder()
    ensures Prepare("?3") == Ok(Prepared([3], "_3", ["_3"]))
    ensures Canonical(RunAfter("?3", Marks("?3")[0]))
    ensures PlacedAt("_3", Marks("?3")[0], "_3")
  {
    PlainColumns();
    PlainRewrite();
    NameOfThree();
    assert "_3"[0..2] == "_3";
  }

  lemma PlainColumns()
    ensures Columns("?3") == Ok([3])
    ensures Marks("?3") == [0] && RunAfter("?3", 0) == "3"
  {
    var s := "?3";
    assert DigitRun(s, 2) == 0 && DigitRun(s, 1) == 1;
    assert CapturesFrom(s, 2) == [];
    assert CapturesFrom(s, 0) == [s[1..2]] + CapturesFrom(s, 2);
    assert s[1..2] == "3";
    assert ParseU32("3") == Ok(3);
    ParseAllCons("3", [], 3, []);
    assert ["3"] + [] == ["3"] && [3] + [] == [3];
    assert MarksFrom(s, 2) == [] && MarksFrom(s, 1) == [];
  }

  lemma PlainRewrite()
    ensures Replace("?3", "?", "_") == "_3"
  {
    ReplaceCharPointwise("?3", '?', '_');
    var r := Replace("?3", "?", "_");
    assert r[0] == '_' && r[1] == '3';
  }

  /** Repeated placeholders give repeated columns, in order of appearance. */
  lemma DuplicatesKept()
    ensures Columns("?1+?2*?1") == Ok([1, 2, 1])
  {
    DuplicatesCaptured();
    DuplicatesParsed();
  }

  lemma DuplicatesParsed()
    ensures ParseAll(["1", "2", "1"]) == Ok([1, 2, 1])
  {
    assert ParseU32("1") == Ok(1) && ParseU32("2") == Ok(2);
    ParseAllCons("1", [], 1, []);
    assert ["1"] + [] == ["1"] && [1] + [] == [1];
    ParseAllCons("2", ["1"], 2, [1]);
    assert ["2"] + ["1"] == ["2", "1"] && [2] + [1] == [2, 1];
    ParseAllCons("1", ["2", "1"], 1, [2, 1]);
    assert ["1"] + ["2", "1"] == ["1", "2", "1"] && [1] + [2, 1] == [1, 2, 1];
  }

  lemma DuplicatesCaptured()
    ensures CapturesFrom("?1+?2*?1", 0) == ["1", "2", "1"]
  {
    var s := "?1+?2*?1";
    assert DigitRun(s, 8) == 0 && DigitRun(s, 7) == 1;
    assert DigitRun(s, 5) == 0 && DigitRun(s, 4) == 1;
    assert DigitRun(s, 2) == 0 && DigitRun(s, 1) == 1;
    assert CapturesFrom(s, 8) == [];
    assert CapturesFrom(s, 6) == [s[7..8]] + CapturesFrom(s, 8);
    assert CapturesFrom(s, 3) == [s[4..5]] + CapturesFrom(s, 5);
    assert CapturesFrom(s, 5) == CapturesFrom(s, 6);
    assert CapturesFrom(s, 2) == CapturesFrom(s, 3);
    assert CapturesFrom(s, 0) == [s[1..2]] + CapturesFrom(s, 2);
    assert s[1..2] == "1" && s[4..5] == "2" && s[7..8] == "1";
  }

  /** A `?` without digits aborts the set-up. */
  lemma MissingDigitsFail()
    ensures Prepare("?+1") == Err(Empty)
  {
    var s := "?+1";
    assert DigitRun(s, 1) == 0;
    assert CapturesFrom(s, 0) == [s[1..1]] + CapturesFrom(s, 1);
    assert ParseU32(s[1..1]) == Err(Empty);
  }

  /** A number above `u32::MAX` aborts the set-up. */
  lemma OverflowFails()
    ensures Prepare("?4294967296") == Err(PosOverflow)
  {
    var t := "?4294967296";
    OverflowRun();
    assert CapturesFrom(t, 0) == [t[1..11]] + CapturesFrom(t, 11);
    assert t[1..11] == "4294967296";
    OverflowValue();
    assert ParseU32("4294967296") == Err(PosOverflow);
  }

  lemma OverflowRun()
    ensures DigitRun("?4294967296", 1) == 10
  {
    var t := "?4294967296";
    assert DigitRun(t, 11) == 0;
    assert DigitRun(t, 10) == 1;
    assert DigitRun(t, 9) == 2;
    assert DigitRun(t, 8) == 3;
    assert DigitRun(t, 7) == 4;
    assert DigitRun(t, 6) == 5;
    assert DigitRun(t, 5) == 6;
    assert DigitRun(t, 4) == 7;
    assert DigitRun(t, 3) == 8;
    assert DigitRun(t, 2) == 9;
  }

  lemma OverflowValue()
    ensures Value("4294967296") == 4294967296
  {
    OverflowPrefix();
    assert Value("429496") == 429496 by { assert "429496"[..5] == "42949"; }
    assert Value("4294967") == 4294967 by { assert "4294967"[..6] == "429496"; }
    assert Value("42949672") == 42949672 by { assert "42949672"[..7] == "4294967"; }
    assert Value("429496729") == 429496729 by { assert "429496729"[..8] == "42949672"; }
    assert "4294967296"[..9] == "429496729";
  }

  lemma OverflowPrefix()
    ensures Value("42949") == 42949
  {
    assert Value("4") == 4;
    assert Value("42") == 42 by { assert "42"[..1] == "4"; }
    assert Value("429") == 429 by { assert "429"[..2] == "42"; }
    assert Value("4294") == 4294 by { assert "4294"[..3] == "429"; }
    assert "42949"[..4] == "4294";
  }
}
