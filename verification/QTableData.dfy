/** The records of the Q-table (QTableData.cs): the action and distance enums, the
    state key, the row of four action values, and the CSV codec of each record. */
module QTableData {
  import opened Wrappers
  import opened CsvText

  /** `QTableAction`: one move per compass direction. */
  datatype Action = GoNorth | GoEast | GoSouth | GoWest

  /** The enum ordinal of an action: North 0, East 1, South 2, West 3. */
  function Ordinal(a: Action): (n: nat)
    ensures n < 4
  {
    match a
    case GoNorth => 0
    case GoEast => 1
    case GoSouth => 2
    case GoWest => 3
  }

  /** The actions in ordinal order, as `GetBestAction` scans them. */
  const Actions: seq<Action> := [GoNorth, GoEast, GoSouth, GoWest]

  /** The action list is the inverse of `Ordinal`: it lists every action exactly
      once, at the position of its ordinal. */
  lemma ActionsByOrdinal()
    ensures |Actions| == 4
    ensures forall i :: 0 <= i < |Actions| ==> Ordinal(Actions[i]) == i
    ensures forall a: Action :: Actions[Ordinal(a)] == a
  {
  }

  /** `QTableDistances` is a C# enum, that is an `int` with three named values. The
      decoder casts any parsed `int` to it, so values outside the names exist. */
  type Distance = Int32

  const Close: Distance := 0
  const Middle: Distance := 1
  const Far: Distance := 2

  /** `QTableState`: walkability of the four neighbours, whether the other entity
      lies strictly north/east/south/west, and the distance bucket. */
  datatype State = State(
    northWalkable: bool,
    eastWalkable: bool,
    southWalkable: bool,
    westWalkable: bool,
    enemyNorth: bool,
    enemyEast: bool,
    enemySouth: bool,
    enemyWest: bool,
    distance: Distance)

  /** Flag `i` of a state in the order the file stores them: walkable north, east,
      south, west, then other entity north, east, south, west. */
  function Flag(s: State, i: nat): bool
    requires i < 8
  {
    if i == 0 then s.northWalkable
    else if i == 1 then s.eastWalkable
    else if i == 2 then s.southWalkable
    else if i == 3 then s.westWalkable
    else if i == 4 then s.enemyNorth
    else if i == 5 then s.enemyEast
    else if i == 6 then s.enemySouth
    else s.enemyWest
  }

  /** `QTableReward`: the learned value of each action in one state. */
  datatype Row = Row(north: real, east: real, south: real, west: real) {

    /** The value of one action. */
    function Get(a: Action): real {
      match a
      case GoNorth => north
      case GoEast => east
      case GoSouth => south
      case GoWest => west
    }

    /** The row with the value of `a` replaced and the three others kept. */
    function With(a: Action, v: real): (r: Row)
      ensures r.Get(a) == v
      ensures forall b :: b != a ==> r.Get(b) == Get(b)
    {
      match a
      case GoNorth => this.(north := v)
      case GoEast => this.(east := v)
      case GoSouth => this.(south := v)
      case GoWest => this.(west := v)
    }
  }

  /** Value `i` of a row in the order the file stores them: north, east, south, west. */
  function Value(r: Row, i: nat): real
    requires i < 4
  {
    if i == 0 then r.north else if i == 1 then r.east else if i == 2 then r.south else r.west
  }

  /** `new QTableReward()`: every action value starts at zero. */
  const ZeroRow: Row := Row(0.0, 0.0, 0.0, 0.0)

  /** Why a line of the table file could not be loaded: a field index past the end
      of the split line, a field that does not parse, or a state already in the
      table (`Dictionary.Add` throws). */
  datatype CsvError = MissingField(index: nat) | BadField(index: nat) | DuplicateKey

  /** `CSVGetNumElements` of a state and of a row. */
  const StateNumElements: nat := 9
  const RowNumElements: nat := 4

  // ---------------------------------------------------------------- encoding

  /** Field text `i` of a state: the eight flags, then the distance ordinal. */
  function FieldText(s: State, i: nat): string
    requires i < 9
  {
    if i < 8 then BoolText(Flag(s, i)) else IntText(s.distance)
  }

  /** The nine field texts of a state, before separators and spaces are added. */
  function StateFields(s: State): seq<string> {
    seq(9, i requires 0 <= i < 9 => FieldText(s, i))
  }

  /** `QTableState.CSVGetData(separator)`. */
  function StateText(s: State, sep: char): string {
    Record(StateFields(s), sep)
  }

  /** The four field texts of a row. */
  function RowFields(codec: FloatCodec, r: Row): seq<string> {
    seq(4, i requires 0 <= i < 4 => codec.format(Value(r, i)))
  }

  /** `QTableReward.CSVGetData(separator)`. */
  function RowText(codec: FloatCodec, r: Row, sep: char): string {
    Record(RowFields(codec, r), sep)
  }

  // ---------------------------------------------------------------- decoding

  /** `dataStrings[i]`, which throws when the line has too few fields. */
  function FieldAt(fields: seq<string>, i: nat): Result<string, CsvError> {
    if i < |fields| then Success(fields[i]) else Failure(MissingField(i))
  }

  function BoolField(fields: seq<string>, i: nat): Result<bool, CsvError> {
    var f :- FieldAt(fields, i);
    match ParseBool(f)
    case Some(b) => Success(b)
    case None => Failure(BadField(i))
  }

  /** `(QTableDistances)int.Parse(...)`: no range check on the ordinal. */
  function DistanceField(fields: seq<string>, i: nat): Result<Distance, CsvError> {
    var f :- FieldAt(fields, i);
    match ParseInt32(f)
    case Some(d) => Success(d)
    case None => Failure(BadField(i))
  }

  function FloatField(codec: FloatCodec, fields: seq<string>, i: nat): Result<real, CsvError> {
    var f :- FieldAt(fields, i);
    match ParseFloat(codec, f)
    case Some(x) => Success(x)
    case None => Failure(BadField(i))
  }

  /** Field `k` exists and parses as the flag `b`. */
  predicate FlagAt(fields: seq<string>, k: nat, b: bool) {
    k < |fields| && ParseBool(fields[k]) == Some(b)
  }

  predicate IsFlagAt(fields: seq<string>, k: nat) {
    k < |fields| && ParseBool(fields[k]).Some?
  }

  /** Field `k` exists and parses as the `int` `d`. */
  predicate IntAt(fields: seq<string>, k: nat, d: Int32) {
    k < |fields| && ParseInt32(fields[k]) == Some(d)
  }

  predicate IsIntAt(fields: seq<string>, k: nat) {
    k < |fields| && ParseInt32(fields[k]).Some?
  }

  /** Field `k` exists and parses as the float `x`. */
  predicate FloatAt(codec: FloatCodec, fields: seq<string>, k: nat, x: real) {
    k < |fields| && ParseFloat(codec, fields[k]) == Some(x)
  }

  predicate IsFloatAt(codec: FloatCodec, fields: seq<string>, k: nat) {
    k < |fields| && ParseFloat(codec, fields[k]).Some?
  }

  /** Reads `n` flags from `offset` on, one field after the other, stopping at the
      first field that is missing or does not parse. */
  function DecodeFlags(fields: seq<string>, offset: nat, n: nat): (r: Result<seq<bool>, CsvError>)
    ensures r.Success? <==> forall k :: offset <= k < offset + n ==> IsFlagAt(fields, k)
    ensures r.Success? ==> |r.value| == n && forall i :: 0 <= i < n ==> FlagAt(fields, offset + i, r.value[i])
    decreases n
  {
    if n == 0 then Success([])
    else
      assert IsFlagAt(fields, offset) <==> BoolField(fields, offset).Success?;
      var b :- BoolField(fields, offset);
      var rest :- DecodeFlags(fields, offset + 1, n - 1);
      Success([b] + rest)
  }

  /** `QTableState.CSVSetData(dataStrings, offset)`: reads exactly the fields
      `offset .. offset + 8`, in the order the encoder writes them: eight flags,
      then the distance ordinal. */
  function DecodeState(fields: seq<string>, offset: nat): (r: Result<State, CsvError>)
    ensures r.Success? <==>
              (forall k :: offset <= k < offset + 8 ==> IsFlagAt(fields, k)) && IsIntAt(fields, offset + 8)
    ensures r.Success? ==>
              (forall i :: 0 <= i < 8 ==> FlagAt(fields, offset + i, Flag(r.value, i)))
              && IntAt(fields, offset + 8, r.value.distance)
  {
    var flags :- DecodeFlags(fields, offset, 8);
    var distance :- DistanceField(fields, offset + 8);
    Success(StateOf(flags, distance))
  }

  /** The state whose eight flags, in file order, are `flags`. */
  function StateOf(flags: seq<bool>, distance: Distance): (s: State)
    requires |flags| == 8
    ensures forall i :: 0 <= i < 8 ==> Flag(s, i) == flags[i]
    ensures s.distance == distance
  {
    State(flags[0], flags[1], flags[2], flags[3], flags[4], flags[5], flags[6], flags[7], distance)
  }

  /** Reads `n` float values from `offset` on, one field after the other. */
  function DecodeFloats(codec: FloatCodec, fields: seq<string>, offset: nat, n: nat): (r: Result<seq<real>, CsvError>)
    ensures r.Success? <==> forall k :: offset <= k < offset + n ==> IsFloatAt(codec, fields, k)
    ensures r.Success? ==> |r.value| == n && forall i :: 0 <= i < n ==> FloatAt(codec, fields, offset + i, r.value[i])
    decreases n
  {
    if n == 0 then Success([])
    else
      assert IsFloatAt(codec, fields, offset) <==> FloatField(codec, fields, offset).Success?;
      var x :- FloatField(codec, fields, offset);
      var rest :- DecodeFloats(codec, fields, offset + 1, n - 1);
      Success([x] + rest)
  }

  /** `QTableReward.CSVSetData(dataStrings, offset)`: reads exactly the fields
      `offset .. offset + 3`, as the north, east, south and west values. */
  function DecodeRow(codec: FloatCodec, fields: seq<string>, offset: nat): (r: Result<Row, CsvError>)
    ensures r.Success? <==> forall k :: offset <= k < offset + 4 ==> IsFloatAt(codec, fields, k)
    ensures r.Success? ==> forall i :: 0 <= i < 4 ==> FloatAt(codec, fields, offset + i, Value(r.value, i))
  {
    var values :- DecodeFloats(codec, fields, offset, 4);
    Success(RowOf(values))
  }

  /** The row whose values, in file order, are `values`. */
  function RowOf(values: seq<real>): (r: Row)
    requires |values| == 4
    ensures forall i :: 0 <= i < 4 ==> Value(r, i) == values[i]
  {
    Row(values[0], values[1], values[2], values[3])
  }

  // ---------------------------------------------------------------- round trips

  /** Decoding a window that shows the encoder's nine texts gives the state back,
      whatever the rest of the line holds. */
  lemma DecodeStateFields(s: State, fields: seq<string>, offset: nat)
    requires offset + StateNumElements <= |fields|
    requires forall i :: 0 <= i < StateNumElements ==> Shows(fields[offset + i], StateFields(s)[i])
    ensures DecodeState(fields, offset) == Success(s)
  {
    forall i | 0 <= i < 8
      ensures FlagAt(fields, offset + i, Flag(s, i))
    {
      assert StateFields(s)[i] == FieldText(s, i);
      ParseBoolText(Flag(s, i));
    }
    forall k | offset <= k < offset + 8
      ensures IsFlagAt(fields, k)
    {
      assert FlagAt(fields, offset + (k - offset), Flag(s, k - offset));
    }
    assert StateFields(s)[8] == FieldText(s, 8);
    ParseIntText(s.distance);
    assert IntAt(fields, offset + 8, s.distance);
    var v := DecodeState(fields, offset).value;
    forall i | 0 <= i < 8
      ensures Flag(v, i) == Flag(s, i)
    {
      assert FlagAt(fields, offset + i, Flag(v, i));
    }
    FlagsDetermineState(v, s);
  }

  /** A state is its eight flags and its distance. */
  lemma FlagsDetermineState(s: State, t: State)
    requires forall i :: 0 <= i < 8 ==> Flag(s, i) == Flag(t, i)
    requires s.distance == t.distance
    ensures s == t
  {
    assert s.northWalkable == Flag(s, 0) == Flag(t, 0) == t.northWalkable;
    assert s.eastWalkable == Flag(s, 1) == Flag(t, 1) == t.eastWalkable;
    assert s.southWalkable == Flag(s, 2) == Flag(t, 2) == t.southWalkable;
    assert s.westWalkable == Flag(s, 3) == Flag(t, 3) == t.westWalkable;
    assert s.enemyNorth == Flag(s, 4) == Flag(t, 4) == t.enemyNorth;
    assert s.enemyEast == Flag(s, 5) == Flag(t, 5) == t.enemyEast;
    assert s.enemySouth == Flag(s, 6) == Flag(t, 6) == t.enemySouth;
    assert s.enemyWest == Flag(s, 7) == Flag(t, 7) == t.enemyWest;
  }

  /** Every value of the row has a float text that round-trips. */
  predicate RowRoundTrips(codec: FloatCodec, r: Row) {
    forall i :: 0 <= i < RowNumElements ==> RoundTrips(codec, Value(r, i))
  }

  lemma DecodeRowFields(codec: FloatCodec, r: Row, fields: seq<string>, offset: nat)
    requires RowRoundTrips(codec, r)
    requires offset + RowNumElements <= |fields|
    requires forall i :: 0 <= i < RowNumElements ==> Shows(fields[offset + i], RowFields(codec, r)[i])
    ensures DecodeRow(codec, fields, offset) == Success(r)
  {
    forall i | 0 <= i < 4
      ensures FloatAt(codec, fields, offset + i, Value(r, i))
    {
      assert RowFields(codec, r)[i] == codec.format(Value(r, i));
      TrimClean(codec.format(Value(r, i)));
    }
    forall k | offset <= k < offset + 4
      ensures IsFloatAt(codec, fields, k)
    {
      assert FloatAt(codec, fields, offset + (k - offset), Value(r, k - offset));
    }
    var v := DecodeRow(codec, fields, offset).value;
    forall i | 0 <= i < 4
      ensures Value(v, i) == Value(r, i)
    {
      assert FloatAt(codec, fields, offset + i, Value(v, i));
    }
    assert v.north == Value(v, 0) == Value(r, 0) == r.north;
    assert v.east == Value(v, 1) == Value(r, 1) == r.east;
    assert v.south == Value(v, 2) == Value(r, 2) == r.south;
    assert v.west == Value(v, 3) == Value(r, 3) == r.west;
  }

  /** The state texts contain no separator, no line break and no surrounding white
      space. */
  lemma StateFieldsShape(s: State)
    ensures |StateFields(s)| == StateNumElements
    ensures forall i :: 0 <= i < StateNumElements ==>
              NoSeparator(StateFields(s)[i]) && SingleLine(StateFields(s)[i]) && Clean(StateFields(s)[i])
  {
    forall i | 0 <= i < StateNumElements
      ensures NoSeparator(StateFields(s)[i]) && SingleLine(StateFields(s)[i]) && Clean(StateFields(s)[i])
    {
      if i < 8 {
        BoolTextShape(Flag(s, i));
      } else {
        IntTextShape(s.distance);
      }
    }
  }

  /** `CSVGetData` then `Split` then `CSVSetData(_, 0)` gives the state back; the
      split record has one field more than `CSVGetNumElements`, the empty one after
      the trailing separator, and decoding never looks at it. */
  lemma StateTextRoundTrip(s: State, sep: char)
    requires sep in Separators
    ensures |Split(StateText(s, sep))| == StateNumElements + 1
    ensures Split(StateText(s, sep))[StateNumElements] == ""
    ensures DecodeState(Split(StateText(s, sep)), 0) == Success(s)
  {
    StateFieldsShape(s);
    SpacedNoSeparator(StateFields(s));
    SplitTerminated(Spaced(StateFields(s)), sep);
    DecodeStateFields(s, Split(StateText(s, sep)), 0);
  }

  lemma RowFieldsShape(codec: FloatCodec, r: Row)
    requires RowRoundTrips(codec, r)
    ensures |RowFields(codec, r)| == RowNumElements
    ensures forall i :: 0 <= i < RowNumElements ==>
              NoSeparator(RowFields(codec, r)[i]) && SingleLine(RowFields(codec, r)[i]) && Clean(RowFields(codec, r)[i])
  {
    forall i | 0 <= i < RowNumElements
      ensures NoSeparator(RowFields(codec, r)[i]) && SingleLine(RowFields(codec, r)[i]) && Clean(RowFields(codec, r)[i])
    {
      assert RowFields(codec, r)[i] == codec.format(Value(r, i));
    }
  }

  /** The row counterpart of `StateTextRoundTrip`, whenever the texts of the
      row's four values round-trip. */
  lemma RowTextRoundTrip(codec: FloatCodec, r: Row, sep: char)
    requires RowRoundTrips(codec, r) && sep in Separators
    ensures |Split(RowText(codec, r, sep))| == RowNumElements + 1
    ensures Split(RowText(codec, r, sep))[RowNumElements] == ""
    ensures DecodeRow(codec, Split(RowText(codec, r, sep)), 0) == Success(r)
  {
    RowFieldsShape(codec, r);
    SpacedNoSeparator(RowFields(codec, r));
    SplitTerminated(Spaced(RowFields(codec, r)), sep);
    DecodeRowFields(codec, r, Split(RowText(codec, r, sep)), 0);
  }
}
