/** The action-value table of QTable.cs as an immutable map from state keys to rows.
    Every operation that the C# class performs in place returns the new table here;
    reads that do not insert return only the value. */
module QTable {
  import opened QTableData

  /** `QTable.qTable`: `Dictionary<QTableState, QTableReward>`. */
  type Table = map<State, Row>

  /** `Add(state, reward)`: insert the row, or overwrite the row already there. */
  function Add(t: Table, s: State, row: Row): (r: Table)
    ensures r.Keys == t.Keys + {s}
    ensures r[s] == row
    ensures forall k :: k in t && k != s ==> r[k] == t[k]
  {
    t[s := row]
  }

  /** `Add(state)`: store a zero row, also over a row that is already there. */
  function AddDefault(t: Table, s: State): (r: Table)
    ensures r.Keys == t.Keys + {s}
    ensures forall a :: r[s].Get(a) == 0.0
    ensures forall k :: k in t && k != s ==> r[k] == t[k]
  {
    Add(t, s, ZeroRow)
  }

  /** `GetQ`: the stored value of `a` in `s`, or 0 when `s` has no row. The table is
      not changed, so an absent state stays absent. */
  function GetQ(t: Table, s: State, a: Action): (q: real)
    ensures s !in t ==> q == 0.0
    ensures s in t ==> q == t[s].Get(a)
  {
    if s !in t then 0.0 else t[s].Get(a)
  }

  /** Unity's `Mathf.Max(params float[])` after its first element: keep the running
      maximum, replacing it only by a strictly greater value. */
  function MaxFrom(acc: real, xs: seq<real>): (m: real)
    ensures m >= acc
    ensures forall i :: 0 <= i < |xs| ==> xs[i] <= m
    ensures m == acc || m in xs
    decreases |xs|
  {
    if |xs| == 0 then acc else MaxFrom(if xs[0] > acc then xs[0] else acc, xs[1..])
  }

  /** `Mathf.Max(params float[])`: 0 for no values, otherwise the largest value. */
  function MathfMax(xs: seq<real>): (m: real)
    ensures |xs| == 0 ==> m == 0.0
    ensures |xs| > 0 ==> m in xs && forall i :: 0 <= i < |xs| ==> xs[i] <= m
    ensures forall x :: x in xs ==> x <= m
  {
    if |xs| == 0 then 0.0 else MaxFrom(xs[0], xs[1..])
  }

  /** `GetMaxQ` as written: `Mathf.Max(f1, f2, f3, f3)` passes the south value twice
      and never the west value. 0 for an absent state, which is not inserted. */
  function GetMaxQ(t: Table, s: State): (q: real)
    ensures s !in t ==> q == 0.0
    ensures s in t ==> q >= t[s].north && q >= t[s].east && q >= t[s].south
    ensures s in t ==> q == t[s].north || q == t[s].east || q == t[s].south
  {
    if s !in t then 0.0
    else
      var row := t[s];
      var values := [row.north, row.east, row.south, row.south];
      assert values[0] == row.north && values[1] == row.east && values[2] == row.south;
      MathfMax(values)
  }

  /** The maximum over all four actions that `GetMaxQ` is meant to compute. */
  function GetMaxQIntended(t: Table, s: State): (q: real)
    ensures s !in t ==> q == 0.0
    ensures s in t ==> forall a :: t[s].Get(a) <= q
    ensures s in t ==> exists a :: t[s].Get(a) == q
  {
    if s !in t then 0.0
    else
      var row := t[s];
      var values := [row.north, row.east, row.south, row.west];
      var q := MathfMax(values);
      assert forall a :: row.Get(a) in values;
      assert q == row.Get(GoNorth) || q == row.Get(GoEast) || q == row.Get(GoSouth) || q == row.Get(GoWest);
      q
  }

  /** The west value never influences `GetMaxQ`. */
  lemma GetMaxQIgnoresWest(t: Table, s: State, v: real)
    requires s in t
    ensures GetMaxQ(t[s := t[s].(west := v)], s) == GetMaxQ(t, s)
  {
  }

  /** A row whose only positive value is west: `GetMaxQ` reports 0 where the
      maximum over the four actions is 1. */
  lemma GetMaxQMissesWest(s: State)
    ensures GetMaxQ(map[s := Row(0.0, 0.0, 0.0, 1.0)], s) == 0.0
    ensures GetMaxQIntended(map[s := Row(0.0, 0.0, 0.0, 1.0)], s) == 1.0
  {
    var t := map[s := Row(0.0, 0.0, 0.0, 1.0)];
    assert t[s].Get(GoWest) == 1.0;
  }

  /** The two maxima agree exactly when the west value does not exceed the other three. */
  lemma MaxQAgreesUnlessWestDominates(t: Table, s: State)
    ensures GetMaxQ(t, s) == GetMaxQIntended(t, s) <==> s !in t || t[s].west <= GetMaxQ(t, s)
  {
    if s in t {
      var row := t[s];
      var q := GetMaxQ(t, s);
      assert row.Get(GoWest) == row.west;
      if row.west <= q {
        assert forall a :: row.Get(a) <= q;
        var a :| row.Get(a) == GetMaxQIntended(t, s);
        assert row.Get(GoNorth) == row.north && row.Get(GoEast) == row.east && row.Get(GoSouth) == row.south;
      }
    }
  }

  /** `a` has the largest value of the row, and every action scanned before it has
      a strictly smaller one: the first maximum in North, East, South, West order. */
  predicate IsFirstBest(row: Row, a: Action) {
    && (forall b :: row.Get(b) <= row.Get(a))
    && (forall b :: Ordinal(b) < Ordinal(a) ==> row.Get(b) < row.Get(a))
  }

  /** A row has at most one first maximum. */
  lemma FirstBestUnique(row: Row, a: Action, b: Action)
    requires IsFirstBest(row, a) && IsFirstBest(row, b)
    ensures a == b
  {
    if Ordinal(a) == Ordinal(b) {
      ActionsByOrdinal();
      assert Actions[Ordinal(a)] == Actions[Ordinal(b)];
    }
  }

  /** The scan of `GetBestAction` unrolled: a later action wins only with a strictly
      greater value. */
  function BestAction(row: Row): (a: Action)
    ensures IsFirstBest(row, a)
  {
    var a1 := if row.east > row.north then GoEast else GoNorth;
    var a2 := if row.south > row.Get(a1) then GoSouth else a1;
    if row.west > row.Get(a2) then GoWest else a2
  }

  /** `GetBestAction`: inserts a zero row for an absent state, then scans the four
      values in ordinal order keeping the first maximum. */
  method GetBestAction(t: Table, s: State) returns (a: Action, t': Table)
    ensures t'.Keys == t.Keys + {s}
    ensures forall k :: k in t ==> t'[k] == t[k]
    ensures s in t ==> t' == t
    ensures s !in t ==> t'[s] == ZeroRow && a == GoNorth
    ensures IsFirstBest(t'[s], a)
  {
    t' := t;
    if s !in t' {
      t' := AddDefault(t', s);
    }
    var row := t'[s];
    var rewards := [row.north, row.east, row.south, row.west];
    ActionsByOrdinal();
    var maxValue := rewards[0];
    var maxIndex := 0;
    for i := 0 to 4
      invariant 0 <= maxIndex < 4 && maxIndex <= i
      invariant maxValue == rewards[maxIndex]
      invariant forall j :: 0 <= j < i ==> rewards[j] <= maxValue
      invariant forall j :: 0 <= j < maxIndex ==> rewards[j] < maxValue
    {
      if rewards[i] > maxValue {
        maxValue := rewards[i];
        maxIndex := i;
      }
    }
    a := Actions[maxIndex];
    assert forall b :: row.Get(b) == rewards[Ordinal(b)];
  }

  /** `SetQ`: store `value` as the value of `a` in `s`, starting from a zero row when
      `s` is absent. */
  function SetQ(t: Table, s: State, a: Action, value: real): (r: Table)
    ensures r.Keys == t.Keys + {s}
    ensures r[s].Get(a) == value
    ensures forall b :: b != a ==> r[s].Get(b) == GetQ(t, s, b)
    ensures forall k :: k in t && k != s ==> r[k] == t[k]
  {
    var base := if s in t then t else AddDefault(t, s);
    base[s := base[s].With(a, value)]
  }

  /** Reading after writing: `GetQ` sees the value `SetQ` stored, and only there. */
  lemma GetQAfterSetQ(t: Table, s: State, a: Action, value: real, s': State, b: Action)
    ensures GetQ(SetQ(t, s, a, value), s', b) == if s' == s && b == a then value else GetQ(t, s', b)
  {
  }

  /** Unity's `Mathf.Clamp01`. */
  function Clamp01(x: real): (c: real)
    ensures 0.0 <= c <= 1.0
    ensures 0.0 <= x <= 1.0 ==> c == x
  {
    if x < 0.0 then 0.0 else if x > 1.0 then 1.0 else x
  }

  /** The product `d * c` for a fraction `c` in [0, 1]: it lies between 0 and `d`,
      is 0 for `c = 0` and `d` for `c = 1`. */
  function Scale(d: real, c: real): (p: real)
    requires 0.0 <= c <= 1.0
    ensures d >= 0.0 ==> 0.0 <= p <= d
    ensures d <= 0.0 ==> d <= p <= 0.0
    ensures c == 0.0 ==> p == 0.0
    ensures c == 1.0 ==> p == d
  {
    if d >= 0.0 then
      assert d * c <= d * 1.0;
      d * c
    else
      assert d * c >= d * 1.0;
      d * c
  }

  /** Unity's `Mathf.Lerp(a, b, t)`, `a + (b - a) * Clamp01(t)`: it moves from `a`
      toward `b` by the clamped fraction `t`, and never past `b`. */
  function Lerp(a: real, b: real, t: real): (r: real)
    ensures t <= 0.0 ==> r == a
    ensures t >= 1.0 ==> r == b
    ensures a <= b ==> a <= r <= b
    ensures b <= a ==> b <= r <= a
  {
    a + Scale(b - a, Clamp01(t))
  }

  /** The write of `UpdateQ` for a given target: `Q(s, a)` moves toward `target` by
      the clamped learning rate, and nothing else in the table changes. */
  function MoveToward(t: Table, s: State, a: Action, target: real, alpha: real): (r: Table)
    ensures GetQ(r, s, a) == GetQ(t, s, a) + Clamp01(alpha) * (target - GetQ(t, s, a))
    ensures alpha >= 1.0 ==> GetQ(r, s, a) == target
    ensures alpha <= 0.0 ==> GetQ(r, s, a) == GetQ(t, s, a)
    ensures (GetQ(t, s, a) <= target ==> GetQ(t, s, a) <= GetQ(r, s, a) <= target)
            && (target <= GetQ(t, s, a) ==> target <= GetQ(r, s, a) <= GetQ(t, s, a))
    ensures r.Keys == t.Keys + {s}
    ensures forall b :: b != a ==> GetQ(r, s, b) == GetQ(t, s, b)
    ensures forall k :: k in t && k != s ==> r[k] == t[k]
  {
    var newQ := Lerp(GetQ(t, s, a), target, alpha);
    var r := SetQ(t, s, a, newQ);
    assert GetQ(r, s, a) == newQ;
    r
  }

  /** The temporal-difference target `reward + gamma * maxQ(next)`. */
  function Target(reward: real, gamma: real, maxNext: real): real {
    reward + gamma * maxNext
  }

  /** `UpdateQ`: `Q(s, a)` moves toward the target `reward + gamma * GetMaxQ(next)` by
      the clamped learning rate; both readings are taken before the write. */
  function UpdateQ(t: Table, s: State, next: State, a: Action, reward: real, alpha: real, gamma: real): (r: Table)
    ensures GetQ(r, s, a) == GetQ(t, s, a) + Clamp01(alpha) * (Target(reward, gamma, GetMaxQ(t, next)) - GetQ(t, s, a))
    ensures alpha >= 1.0 ==> GetQ(r, s, a) == Target(reward, gamma, GetMaxQ(t, next))
    ensures alpha <= 0.0 ==> GetQ(r, s, a) == GetQ(t, s, a)
    ensures r.Keys == t.Keys + {s}
    ensures forall b :: b != a ==> GetQ(r, s, b) == GetQ(t, s, b)
    ensures forall k :: k in t && k != s ==> r[k] == t[k]
  {
    MoveToward(t, s, a, Target(reward, gamma, GetMaxQ(t, next)), alpha)
  }

  /** The updated value lies between the old value and the target. */
  lemma UpdateQBetween(t: Table, s: State, next: State, a: Action, reward: real, alpha: real, gamma: real)
    ensures var before := GetQ(t, s, a);
            var target := Target(reward, gamma, GetMaxQ(t, next));
            var q := GetQ(UpdateQ(t, s, next, a, reward, alpha, gamma), s, a);
            (before <= target ==> before <= q <= target) && (target <= before ==> target <= q <= before)
  {
    UpdatesMoveToward(t, s, next, a, reward, alpha, gamma);
  }

  /** `UpdateQ` with the maximum over all four actions of the successor, as the
      comment above `UpdateQ` describes it. */
  function UpdateQIntended(t: Table, s: State, next: State, a: Action, reward: real, alpha: real, gamma: real): (r: Table)
    ensures GetQ(r, s, a) == GetQ(t, s, a) + Clamp01(alpha) * (Target(reward, gamma, GetMaxQIntended(t, next)) - GetQ(t, s, a))
    ensures r.Keys == t.Keys + {s}
    ensures forall b :: b != a ==> GetQ(r, s, b) == GetQ(t, s, b)
    ensures forall k :: k in t && k != s ==> r[k] == t[k]
  {
    MoveToward(t, s, a, Target(reward, gamma, GetMaxQIntended(t, next)), alpha)
  }

  /** Both updates are the write `MoveToward`, each with its own target. */
  lemma UpdatesMoveToward(t: Table, s: State, next: State, a: Action, reward: real, alpha: real, gamma: real)
    ensures UpdateQ(t, s, next, a, reward, alpha, gamma) == MoveToward(t, s, a, Target(reward, gamma, GetMaxQ(t, next)), alpha)
    ensures UpdateQIntended(t, s, next, a, reward, alpha, gamma)
            == MoveToward(t, s, a, Target(reward, gamma, GetMaxQIntended(t, next)), alpha)
  {
  }

  /** The update as written and the intended one store the same table unless the
      successor's west value exceeds its other three. */
  lemma UpdateQAgreesUnlessWestDominates(t: Table, s: State, next: State, a: Action, reward: real, alpha: real, gamma: real)
    requires next !in t || t[next].west <= GetMaxQ(t, next)
    ensures UpdateQ(t, s, next, a, reward, alpha, gamma) == UpdateQIntended(t, s, next, a, reward, alpha, gamma)
  {
    MaxQAgreesUnlessWestDominates(t, next);
    UpdatesMoveToward(t, s, next, a, reward, alpha, gamma);
  }

  /** From an empty table, a full-rate update stores exactly the reward, also when
      the successor is the updated state itself, since its maximum is read before
      the write: `alpha = 1`, `gamma = 0.9`, reward 100 gives 100. */
  lemma FirstUpdateStoresReward(s: State, next: State, a: Action)
    ensures var t := UpdateQ(map[], s, next, a, 100.0, 1.0, 0.9);
            t.Keys == {s} && t[s].Get(a) == 100.0 && forall b :: b != a ==> t[s].Get(b) == 0.0
  {
    assert GetMaxQ(map[], next) == 0.0;
    assert Target(100.0, 0.9, 0.0) == 100.0;
    var t := UpdateQ(map[], s, next, a, 100.0, 1.0, 0.9);
    assert GetQ(t, s, a) == 100.0;
    assert forall b :: b != a ==> GetQ(t, s, b) == 0.0;
  }
}
