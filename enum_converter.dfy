/** `EnumConverter<T>` of SystemMonitor/Settings.cs: `Write` emits
    `value.ToString()` and `Read` is `Enum.Parse(typeof(T), value)`. */
module EnumConverters {
  import opened Wrappers
  import opened Decimal
  import opened Patterns
  import Units
  import Int64

  /** An enum type: its members in declaration order and the range of its
      underlying integer type. */
  datatype EnumType = EnumType(Members: seq<(string, int)>, Min: int, Max: int)

  /** Enum.Parse's exceptions: ArgumentException for text that is neither a
      member name nor a number, OverflowException for a number outside the
      underlying type. */
  datatype Failure = ArgumentError | OverflowError

  /** A text that Enum.Parse treats as a number. */
  predicate LooksNumeric(s: string) {
    s != [] && (IsDigit(s[0]) || s[0] == '-' || s[0] == '+')
  }

  /** A C# identifier cannot look like a number or start with white space. */
  predicate WellFormed(e: EnumType) {
    && e.Min <= e.Max
    && (forall i :: 0 <= i < |e.Members| ==>
          e.Members[i].0 != [] && !LooksNumeric(e.Members[i].0) && !IsSpace(e.Members[i].0[0])
          && e.Min <= e.Members[i].1 <= e.Max)
    && (forall i, j :: 0 <= i < j < |e.Members| ==> e.Members[i].0 != e.Members[j].0)
    && (forall i, j :: 0 <= i < j < |e.Members| ==> e.Members[i].1 != e.Members[j].1)
  }

  /** The name of the first member with value v. */
  function NameOf(members: seq<(string, int)>, v: int): (r: Option<string>)
    ensures r.None? <==> forall i :: 0 <= i < |members| ==> members[i].1 != v
    ensures r.Some? ==> exists i :: 0 <= i < |members| && members[i] == (r.value, v)
  {
    if members == [] then None
    else if members[0].1 == v then Some(members[0].0)
    else
      var r := NameOf(members[1..], v);
      assert r.Some? ==> exists i :: 0 <= i < |members[1..]| && members[1..][i] == (r.value, v);
      r
  }

  /** The value of the first member named s. */
  function ValueOf(members: seq<(string, int)>, s: string): (r: Option<int>)
    ensures r.None? <==> forall i :: 0 <= i < |members| ==> members[i].0 != s
    ensures r.Some? ==> exists i :: 0 <= i < |members| && members[i] == (s, r.value)
  {
    if members == [] then None
    else if members[0].0 == s then Some(members[0].1)
    else
      var r := ValueOf(members[1..], s);
      assert r.Some? ==> exists i :: 0 <= i < |members[1..]| && members[1..][i] == (s, r.value);
      r
  }

  /** `value.ToString()`: the member name, or the decimal number for a value
      no member has. */
  function EnumWrite(e: EnumType, v: int): (s: string)
    ensures NameOf(e.Members, v).None? ==> s == FormatInt(v)
    ensures NameOf(e.Members, v).Some? ==> exists i :: 0 <= i < |e.Members| && e.Members[i] == (s, v)
  {
    match NameOf(e.Members, v)
    case Some(n) => n
    case None => FormatInt(v)
  }

  /** `Enum.Parse`: a text that starts like a number is read as a signed
      numeral, which must lie in the underlying range; any other text, and a
      numeric-looking text that is no numeral, must be a member name. */
  function EnumRead(e: EnumType, s: string): (r: Result<int, Failure>)
    ensures !LooksNumeric(s) ==> (r.Ok? <==> ValueOf(e.Members, s).Some?)
    ensures !LooksNumeric(s) && r.Ok? ==> exists i :: 0 <= i < |e.Members| && e.Members[i] == (s, r.value)
    ensures r == Err(OverflowError) ==> LooksNumeric(s)
  {
    if LooksNumeric(s) then
      var body := if s[0] == '-' || s[0] == '+' then s[1..] else s;
      if body != [] && AllDigits(body) then
        var v := if s[0] == '-' then 0 - ParseDigits(body) else ParseDigits(body);
        if e.Min <= v <= e.Max then Ok(v) else Err(OverflowError)
      else ByName(e, s)
    else ByName(e, s)
  }

  function ByName(e: EnumType, s: string): Result<int, Failure> {
    match ValueOf(e.Members, s)
    case Some(v) => Ok(v)
    case None => Err(ArgumentError)
  }

  lemma NameIsUnique(e: EnumType, i: int)
    requires WellFormed(e) && 0 <= i < |e.Members|
    ensures NameOf(e.Members, e.Members[i].1) == Some(e.Members[i].0)
    ensures ValueOf(e.Members, e.Members[i].0) == Some(e.Members[i].1)
  {
    var n, v := e.Members[i].0, e.Members[i].1;
    assert e.Members[i] == (n, v);
    var a := NameOf(e.Members, v);
    var b := ValueOf(e.Members, n);
    var j :| 0 <= j < |e.Members| && e.Members[j] == (a.value, v);
    var k :| 0 <= k < |e.Members| && e.Members[k] == (n, b.value);
    assert j == i;
    assert k == i;
  }

  /** Every value of the underlying range is read back from what is written
      for it, named or not. */
  lemma EnumRoundTrip(e: EnumType, v: int)
    requires WellFormed(e) && e.Min <= v <= e.Max
    ensures EnumRead(e, EnumWrite(e, v)) == Ok(v)
  {
    match NameOf(e.Members, v)
    case Some(n) =>
      var j :| 0 <= j < |e.Members| && e.Members[j] == (n, v);
      NameIsUnique(e, j);
    case None =>
      var s := FormatInt(v);
      if v < 0 {
        assert s[1..] == FormatNat(-v);
        ParseFormat(-v);
      } else {
        ParseFormat(v);
      }
  }

  /** Every member name is written back from the value read for it. */
  lemma NameRoundTrip(e: EnumType, i: int)
    requires WellFormed(e) && 0 <= i < |e.Members|
    ensures EnumRead(e, e.Members[i].0) == Ok(e.Members[i].1)
    ensures EnumWrite(e, e.Members[i].1) == e.Members[i].0
  {
    NameIsUnique(e, i);
  }

  /** The `Unit` enum: underlying type `long`. */
  function UnitEnum(): EnumType {
    EnumType([(Units.Name(Units.B), Units.Bytes(Units.B)), (Units.Name(Units.KB), Units.Bytes(Units.KB)),
              (Units.Name(Units.MB), Units.Bytes(Units.MB)), (Units.Name(Units.GB), Units.Bytes(Units.GB)),
              (Units.Name(Units.TB), Units.Bytes(Units.TB)), (Units.Name(Units.PB), Units.Bytes(Units.PB))],
             Int64.MinLong, Int64.MaxLong)
  }

  lemma UnitEnumWellFormed()
    ensures WellFormed(UnitEnum())
    ensures forall u :: UnitEnum().Members[Units.Exponent(u)] == (Units.Name(u), Units.Bytes(u))
  {
    UnitMembers();
    UnitNames();
    UnitValuesInRange();
    UnitValuesDistinct();
  }

  lemma UnitMembers()
    ensures |UnitEnum().Members| == 6
    ensures forall i :: 0 <= i < 6 ==>
      UnitEnum().Members[i] == (Units.Name(Units.AllUnits()[i]), Units.Bytes(Units.AllUnits()[i]))
    ensures forall u :: UnitEnum().Members[Units.Exponent(u)] == (Units.Name(u), Units.Bytes(u))
  {
    var us := Units.AllUnits();
    assert forall i :: 0 <= i < 6 ==> UnitEnum().Members[i] == (Units.Name(us[i]), Units.Bytes(us[i]));
  }

  lemma UnitNames()
    ensures forall i :: 0 <= i < |UnitEnum().Members| ==>
      UnitEnum().Members[i].0 != [] && !LooksNumeric(UnitEnum().Members[i].0) && !IsSpace(UnitEnum().Members[i].0[0])
    ensures forall i, j :: 0 <= i < j < |UnitEnum().Members| ==> UnitEnum().Members[i].0 != UnitEnum().Members[j].0
  {
  }

  lemma UnitValuesInRange()
    ensures forall i :: 0 <= i < |UnitEnum().Members| ==>
      Int64.MinLong <= UnitEnum().Members[i].1 <= Int64.MaxLong
  {
    UnitMembers();
    var us := Units.AllUnits();
    Units.UnitValues();
    forall i | 0 <= i < 6
      ensures 0 < Units.Bytes(us[i]) <= Int64.MaxLong
    {
      Units.UnitsIncrease(Units.B, us[i]);
      Units.UnitsIncrease(us[i], Units.PB);
    }
  }

  lemma UnitValuesDistinct()
    ensures forall i, j :: 0 <= i < j < |UnitEnum().Members| ==> UnitEnum().Members[i].1 != UnitEnum().Members[j].1
  {
    UnitMembers();
    var us := Units.AllUnits();
    forall i, j | 0 <= i < j < 6
      ensures Units.Bytes(us[i]) != Units.Bytes(us[j])
    {
      Units.UnitsIncrease(us[i], us[j]);
    }
  }

  /** Each unit is saved as its name and read back as its value. */
  lemma UnitSettings(u: Units.Unit)
    ensures EnumWrite(UnitEnum(), Units.Bytes(u)) == Units.Name(u)
    ensures EnumRead(UnitEnum(), Units.Name(u)) == Ok(Units.Bytes(u))
  {
    UnitEnumWellFormed();
    NameRoundTrip(UnitEnum(), Units.Exponent(u));
  }
}
