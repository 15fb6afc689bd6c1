/** The severity levels of Python's `logging` module that `Logger` walks
    through (logger.py lines 44-50), and the clamped one-step moves of
    `lower_log_level` and `raise_log_level` (lines 120-132) as functions. */
module Levels {

  const DEBUG: int := 10
  const INFO: int := 20
  const WARNING: int := 30
  const ERROR: int := 40
  const CRITICAL: int := 50

  /** `self.levels`, least severe first. */
  const Table: seq<int> := [DEBUG, INFO, WARNING, ERROR, CRITICAL]

  /** Python's `list.index`: the position of the first occurrence. */
  function IndexOf(s: seq<int>, x: int): (i: nat)
    requires x in s
    ensures i < |s| && s[i] == x
    ensures forall j :: 0 <= j < i ==> s[j] != x
    decreases |s|
  {
    if s[0] == x then 0 else 1 + IndexOf(s[1..], x)
  }

  function Min(a: int, b: int): (m: int)
    ensures m <= a && m <= b && (m == a || m == b)
  {
    if a <= b then a else b
  }

  function Max(a: int, b: int): (m: int)
    ensures m >= a && m >= b && (m == a || m == b)
  {
    if a >= b then a else b
  }

  /** The table is ordered by increasing severity, so its entries are distinct. */
  lemma TableAscending()
    ensures forall i, j :: 0 <= i < j < |Table| ==> Table[i] < Table[j]
  {
  }

  /** Looking up an entry of the table finds its own position. */
  lemma IndexOfTable(k: nat)
    requires k < |Table|
    ensures IndexOf(Table, Table[k]) == k
  {
    TableAscending();
  }

  /** `lower_log_level` on a level: one index down, or unchanged at DEBUG. */
  function Lowered(level: int): (r: int)
    requires level in Table
    ensures r in Table
    ensures level == DEBUG ==> r == level
    ensures level != DEBUG ==> r < level && forall l :: l in Table && r < l ==> level <= l
  {
    var index := IndexOf(Table, level);
    if index != 0 then Table[index - 1] else level
  }

  /** `raise_log_level` on a level: one index up, or unchanged at CRITICAL. */
  function Raised(level: int): (r: int)
    requires level in Table
    ensures r in Table
    ensures level == CRITICAL ==> r == level
    ensures level != CRITICAL ==> r > level && forall l :: l in Table && l < r ==> l <= level
  {
    var index := IndexOf(Table, level);
    if index != |Table| - 1 then Table[index + 1] else level
  }

  /** In index terms: lowering moves one position down and stops at 0. */
  lemma LoweredIndex(level: int)
    requires level in Table
    ensures IndexOf(Table, Lowered(level)) == Max(IndexOf(Table, level) - 1, 0)
  {
    var k := IndexOf(Table, level);
    IndexOfTable(k);
    IndexOfTable(if k == 0 then 0 else k - 1);
  }

  /** In index terms: raising moves one position up and stops at the last. */
  lemma RaisedIndex(level: int)
    requires level in Table
    ensures IndexOf(Table, Raised(level)) == Min(IndexOf(Table, level) + 1, |Table| - 1)
  {
    var k := IndexOf(Table, level);
    IndexOfTable(k);
    IndexOfTable(Min(k + 1, |Table| - 1));
  }

  /** A raise followed by a lower restores the level, except from CRITICAL. */
  lemma LowerUndoesRaise(level: int)
    requires level in Table
    ensures Lowered(Raised(level)) == level <==> level != CRITICAL
  {
  }

  /** A lower followed by a raise restores the level, except from DEBUG. */
  lemma RaiseUndoesLower(level: int)
    requires level in Table
    ensures Raised(Lowered(level)) == level <==> level != DEBUG
  {
  }

  /** One call of either adjustment method. */
  datatype Step = Lower | Raise

  function Apply(level: int, step: Step): (r: int)
    requires level in Table
    ensures r in Table
  {
    match step
    case Lower => Lowered(level)
    case Raise => Raised(level)
  }

  /** The level after a sequence of adjustment calls; it never leaves the
      table, which is what keeps `levels.index(...)` from raising. */
  function Walk(level: int, steps: seq<Step>): (r: int)
    requires level in Table
    ensures r in Table
    decreases |steps|
  {
    if steps == [] then level else Walk(Apply(level, steps[0]), steps[1..])
  }

  /** `n` consecutive calls of one method. */
  function Repeat(step: Step, n: nat): (steps: seq<Step>)
    ensures |steps| == n && forall k :: 0 <= k < n ==> steps[k] == step
  {
    if n == 0 then [] else [step] + Repeat(step, n - 1)
  }

  /** `n` raises move `n` positions up the table, clamped at CRITICAL. */
  lemma {:induction false} RaisesClamp(level: int, n: nat)
    requires level in Table
    ensures Walk(level, Repeat(Raise, n)) == Table[Min(IndexOf(Table, level) + n, |Table| - 1)]
    decreases n
  {
    if n == 0 {
      IndexOfTable(0);
      assert Table[IndexOf(Table, level)] == level;
    } else {
      var k := IndexOf(Table, level);
      assert Repeat(Raise, n)[1..] == Repeat(Raise, n - 1);
      assert Walk(level, Repeat(Raise, n)) == Walk(Raised(level), Repeat(Raise, n - 1));
      RaisedIndex(level);
      RaisesClamp(Raised(level), n - 1);
      assert Min(Min(k + 1, |Table| - 1) + (n - 1), |Table| - 1) == Min(k + n, |Table| - 1);
    }
  }

  /** `n` lowers move `n` positions down the table, clamped at DEBUG. */
  lemma {:induction false} LowersClamp(level: int, n: nat)
    requires level in Table
    ensures Walk(level, Repeat(Lower, n)) == Table[Max(IndexOf(Table, level) - n, 0)]
    decreases n
  {
    if n == 0 {
      assert Table[IndexOf(Table, level)] == level;
    } else {
      var k := IndexOf(Table, level);
      assert Repeat(Lower, n)[1..] == Repeat(Lower, n - 1);
      assert Walk(level, Repeat(Lower, n)) == Walk(Lowered(level), Repeat(Lower, n - 1));
      LoweredIndex(level);
      LowersClamp(Lowered(level), n - 1);
      assert Max(Max(k - 1, 0) - (n - 1), 0) == Max(k - n, 0);
    }
  }

  /** Four raises from DEBUG reach CRITICAL and any further raise stays
      there; a lower at DEBUG changes nothing. */
  lemma RaisesFromDebug(extra: nat)
    ensures Walk(DEBUG, Repeat(Raise, 4)) == CRITICAL
    ensures Walk(DEBUG, Repeat(Raise, 4 + extra)) == CRITICAL
    ensures Walk(DEBUG, Repeat(Lower, 1)) == DEBUG
  {
    IndexOfTable(0);
    RaisesClamp(DEBUG, 4);
    RaisesClamp(DEBUG, 4 + extra);
    LowersClamp(DEBUG, 1);
  }
}
