/** The feature encoder: an applicant's attributes become one row of 18 cells in
    a fixed column order (one-hot flags, an ordinal insurance-plan code, verbatim
    copies of the numeric fields and the normalised risk score), and the row is
    then passed through the scaler of the applicant's age segment. */
module Features {
  import Risk

  /** A value of the input dictionary, and equally a cell of the frame. */
  datatype Value = Text(s: string) | Num(x: real)

  /** A key of the input dictionary. The twelve names the encoder and the
      dispatcher compare keys against are constructors of their own; every other
      string is Other(name). KeyOf and KeyName translate between the two forms. */
  datatype Key =
    | Gender | Region | MaritalStatus | BmiCategory | SmokingStatus | EmploymentStatus
    | InsurancePlan | Age | NumberOfDependants | IncomeInLakhs | GeneticalRisk | MedicalHistory
    | Other(name: string)

  function KeyName(k: Key): string {
    match k
    case Gender => "Gender"
    case Region => "Region"
    case MaritalStatus => "Marital Status"
    case BmiCategory => "BMI Category"
    case SmokingStatus => "Smoking Status"
    case EmploymentStatus => "Employment Status"
    case InsurancePlan => "Insurance Plan"
    case Age => "Age"
    case NumberOfDependants => "Number of Dependants"
    case IncomeInLakhs => "Income in Lakhs"
    case GeneticalRisk => "Genetical Risk"
    case MedicalHistory => "Medical History"
    case Other(name) => name
  }

  /** The key a dictionary string stands for: the comparisons key == '...'. */
  function KeyOf(s: string): (k: Key)
    ensures KeyName(k) == s
  {
    if s == "Gender" then Gender
    else if s == "Region" then Region
    else if s == "Marital Status" then MaritalStatus
    else if s == "BMI Category" then BmiCategory
    else if s == "Smoking Status" then SmokingStatus
    else if s == "Employment Status" then EmploymentStatus
    else if s == "Insurance Plan" then InsurancePlan
    else if s == "Age" then Age
    else if s == "Number of Dependants" then NumberOfDependants
    else if s == "Income in Lakhs" then IncomeInLakhs
    else if s == "Genetical Risk" then GeneticalRisk
    else if s == "Medical History" then MedicalHistory
    else Other(s)
  }

  /** The twelve key names the code compares against. */
  const KeyNames: set<string> := {
    "Gender", "Region", "Marital Status", "BMI Category", "Smoking Status",
    "Employment Status", "Insurance Plan", "Age", "Number of Dependants",
    "Income in Lakhs", "Genetical Risk", "Medical History"}

  /** A key in canonical form: Other is used only for names outside the twelve. */
  predicate IsCanonical(k: Key) {
    k.Other? ==> k.name !in KeyNames
  }

  /** Canonical keys and strings are in one-to-one correspondence. */
  lemma KeyRoundTrip(k: Key)
    requires IsCanonical(k)
    ensures KeyOf(KeyName(k)) == k
  {
    assert "Gender"[0] != "Region"[0];
    assert "Marital Status"[0] != "Smoking Status"[0] && "Marital Status"[0] != "Insurance Plan"[0];
    assert "Marital Status"[0] != "Genetical Risk"[0] && "Smoking Status"[0] != "Insurance Plan"[0];
    assert "Smoking Status"[0] != "Genetical Risk"[0] && "Insurance Plan"[0] != "Genetical Risk"[0];
    assert "Income in Lakhs"[0] != "Medical History"[0];
  }

  lemma KeyOfCanonical(s: string)
    ensures IsCanonical(KeyOf(s))
  {
  }

  /** The exceptions the encoder and the dispatcher can raise. */
  datatype Error =
    | HistoryNotText      // 'Medical History' is not a string, so .lower() fails
    | AgeNotComparable    // the age is not a number, so '<= 25' fails
    | MissingAge          // input_dict['Age'] on a dictionary without 'Age'
    | UnknownColumn       // the scaler names a column the frame does not have
    | ShapeMismatch       // the scaler returned a different number of columns

  datatype Result<T> = Ok(value: T) | Err(error: Error)

  datatype Option<T> = None | Some(value: T)

  /** The two age segments, each with its own scaler and model. */
  datatype Segment = Young | Rest

  /** The threshold of the young segment (inclusive). */
  const YoungMaxAge: real := 25.0

  const Zero: Value := Num(0.0)
  const One: Value := Num(1.0)

  // ---------------------------------------------------------------------------
  // Columns

  const ExpectedColumns: seq<string> := [
    "age", "number_of_dependants", "income_lakhs", "insurance_plan", "genetical_risk",
    "normalized_risk_score", "gender_Male", "region_Northwest", "region_Southeast",
    "region_Southwest", "marital_status_Unmarried", "bmi_category_Obesity",
    "bmi_category_Overweight", "bmi_category_Underweight", "smoking_status_Occasional",
    "smoking_status_Regular", "employment_status_Salaried", "employment_status_Self-Employed"]

  const Width: nat := 18

  const AgeCol: nat := 0
  const DependantsCol: nat := 1
  const IncomeCol: nat := 2
  const PlanCol: nat := 3
  const GeneticCol: nat := 4
  const RiskCol: nat := 5
  const MaleCol: nat := 6
  const NorthwestCol: nat := 7
  const SoutheastCol: nat := 8
  const SouthwestCol: nat := 9
  const UnmarriedCol: nat := 10
  const ObesityCol: nat := 11
  const OverweightCol: nat := 12
  const UnderweightCol: nat := 13
  const OccasionalCol: nat := 14
  const RegularCol: nat := 15
  const SalariedCol: nat := 16
  const SelfEmployedCol: nat := 17

  /** Each position constant names the column of that label in ExpectedColumns. */
  lemma ColumnPositions()
    ensures |ExpectedColumns| == Width
    ensures ExpectedColumns[AgeCol] == "age"
    ensures ExpectedColumns[DependantsCol] == "number_of_dependants"
    ensures ExpectedColumns[IncomeCol] == "income_lakhs"
    ensures ExpectedColumns[PlanCol] == "insurance_plan"
    ensures ExpectedColumns[GeneticCol] == "genetical_risk"
    ensures ExpectedColumns[RiskCol] == "normalized_risk_score"
    ensures ExpectedColumns[MaleCol] == "gender_Male"
    ensures ExpectedColumns[NorthwestCol] == "region_Northwest"
    ensures ExpectedColumns[SoutheastCol] == "region_Southeast"
    ensures ExpectedColumns[SouthwestCol] == "region_Southwest"
    ensures ExpectedColumns[UnmarriedCol] == "marital_status_Unmarried"
    ensures ExpectedColumns[ObesityCol] == "bmi_category_Obesity"
    ensures ExpectedColumns[OverweightCol] == "bmi_category_Overweight"
    ensures ExpectedColumns[UnderweightCol] == "bmi_category_Underweight"
    ensures ExpectedColumns[OccasionalCol] == "smoking_status_Occasional"
    ensures ExpectedColumns[RegularCol] == "smoking_status_Regular"
    ensures ExpectedColumns[SalariedCol] == "employment_status_Salaried"
    ensures ExpectedColumns[SelfEmployedCol] == "employment_status_Self-Employed"
  {
  }

  /** The position of a column name in the frame, if the frame has it. */
  function ColumnIndex(name: string): (r: Option<nat>)
    ensures r.Some? ==> r.value < Width && ExpectedColumns[r.value] == name
    ensures r.None? <==> name !in ExpectedColumns
  {
    IndexFrom(name, 0)
  }

  function IndexFrom(name: string, i: nat): (r: Option<nat>)
    requires i <= |ExpectedColumns|
    ensures r.Some? ==> i <= r.value < |ExpectedColumns| && ExpectedColumns[r.value] == name
    ensures r.None? <==> name !in ExpectedColumns[i..]
    decreases |ExpectedColumns| - i
  {
    if i == |ExpectedColumns| then None
    else if ExpectedColumns[i] == name then Some(i)
    else
      assert ExpectedColumns[i..] == [ExpectedColumns[i]] + ExpectedColumns[i + 1..];
      IndexFrom(name, i + 1)
  }

  // ---------------------------------------------------------------------------
  // The encoding, column by column

  /** An iteration order of a dictionary: each key exactly once. */
  ghost predicate IsIterationOrder(keys: seq<Key>, input: map<Key, Value>) {
    (forall i, j :: 0 <= i < j < |keys| ==> keys[i] != keys[j])
    && (forall k :: k in input <==> k in keys)
    && (forall k :: k in input ==> IsCanonical(k))
  }

  /** input.get(key, default). */
  function Lookup(m: map<Key, Value>, key: Key, default: Value): (v: Value)
    ensures key in m ==> v == m[key]
    ensures key !in m ==> v == default
  {
    if key in m then m[key] else default
  }

  /** insurance_plan_encoding.get(value, 1). */
  function PlanCode(v: Value): (code: int)
    ensures 1 <= code <= 3
    ensures code == 2 <==> v == Text("Silver")
    ensures code == 3 <==> v == Text("Gold")
  {
    if v == Text("Bronze") then 1
    else if v == Text("Silver") then 2
    else if v == Text("Gold") then 3
    else 1
  }

  function Flag(m: map<Key, Value>, key: Key, category: string): Value {
    if key in m && m[key] == Text(category) then One else Zero
  }

  /** Column i of the row the loop of the encoder fills from the dictionary m
      (the risk score cell is still 0). */
  function Cell(m: map<Key, Value>, i: nat): (c: Value)
    requires i < Width
    ensures m == map[] ==> c == Zero
  {
    if i == AgeCol then Lookup(m, Age, Zero)
    else if i == DependantsCol then Lookup(m, NumberOfDependants, Zero)
    else if i == IncomeCol then Lookup(m, IncomeInLakhs, Zero)
    else if i == PlanCol then (if InsurancePlan in m then Num(PlanCode(m[InsurancePlan]) as real) else Zero)
    else if i == GeneticCol then Lookup(m, GeneticalRisk, Zero)
    else if i == RiskCol then Zero
    else if i == MaleCol then Flag(m, Gender, "Male")
    else if i == NorthwestCol then Flag(m, Region, "Northwest")
    else if i == SoutheastCol then Flag(m, Region, "Southeast")
    else if i == SouthwestCol then Flag(m, Region, "Southwest")
    else if i == UnmarriedCol then Flag(m, MaritalStatus, "Unmarried")
    else if i == ObesityCol then Flag(m, BmiCategory, "Obesity")
    else if i == OverweightCol then Flag(m, BmiCategory, "Overweight")
    else if i == UnderweightCol then Flag(m, BmiCategory, "Underweight")
    else if i == OccasionalCol then Flag(m, SmokingStatus, "Occasional")
    else if i == RegularCol then Flag(m, SmokingStatus, "Regular")
    else if i == SalariedCol then Flag(m, EmploymentStatus, "Salaried")
    else Flag(m, EmploymentStatus, "Self-Employed")
  }

  /** The row the loop of the encoder fills from the dictionary m. It depends
      on m only, not on the order in which the keys are visited. */
  function Columns(m: map<Key, Value>): (row: seq<Value>)
    ensures |row| == Width
    ensures forall i :: 0 <= i < Width ==> row[i] == Cell(m, i)
  {
    seq(Width, i requires 0 <= i < Width => Cell(m, i))
  }

  /** One pass of the encoder's loop: the effect of one key/value pair. */
  function Step(row: seq<Value>, key: Key, value: Value): (r: seq<Value>)
    requires |row| == Width
    ensures |r| == Width
  {
    if key == Gender && value == Text("Male") then row[MaleCol := One]
    else if key == Region then
      if value == Text("Northwest") then row[NorthwestCol := One]
      else if value == Text("Southeast") then row[SoutheastCol := One]
      else if value == Text("Southwest") then row[SouthwestCol := One]
      else row
    else if key == MaritalStatus && value == Text("Unmarried") then row[UnmarriedCol := One]
    else if key == BmiCategory then
      if value == Text("Obesity") then row[ObesityCol := One]
      else if value == Text("Overweight") then row[OverweightCol := One]
      else if value == Text("Underweight") then row[UnderweightCol := One]
      else row
    else if key == SmokingStatus then
      if value == Text("Occasional") then row[OccasionalCol := One]
      else if value == Text("Regular") then row[RegularCol := One]
      else row
    else if key == EmploymentStatus then
      if value == Text("Salaried") then row[SalariedCol := One]
      else if value == Text("Self-Employed") then row[SelfEmployedCol := One]
      else row
    else if key == InsurancePlan then row[PlanCol := Num(PlanCode(value) as real)]
    else if key == Age then row[AgeCol := value]
    else if key == NumberOfDependants then row[DependantsCol := value]
    else if key == IncomeInLakhs then row[IncomeCol := value]
    else if key == GeneticalRisk then row[GeneticCol := value]
    else row
  }

  /** The one-hot groups: the categories that get a column, and those columns.
      The baseline category of each group has no column. */
  const RegionCategories: seq<string> := ["Northwest", "Southeast", "Southwest"]
  const RegionGroup: seq<nat> := [NorthwestCol, SoutheastCol, SouthwestCol]
  const BmiCategories: seq<string> := ["Obesity", "Overweight", "Underweight"]
  const BmiGroup: seq<nat> := [ObesityCol, OverweightCol, UnderweightCol]
  const SmokingCategories: seq<string> := ["Occasional", "Regular"]
  const SmokingGroup: seq<nat> := [OccasionalCol, RegularCol]
  const EmploymentCategories: seq<string> := ["Salaried", "Self-Employed"]
  const EmploymentGroup: seq<nat> := [SalariedCol, SelfEmployedCol]

  /** The column of a group that value switches on, if it names one of the categories. */
  function GroupColumn(value: Value, categories: seq<string>, cols: seq<nat>): (r: Option<nat>)
    requires |categories| == |cols|
    ensures r.Some? ==> r.value in cols
    ensures r.None? <==> !(value.Text? && value.s in categories)
  {
    if |categories| == 0 then None
    else if value == Text(categories[0]) then Some(cols[0])
    else GroupColumn(value, categories[1..], cols[1..])
  }

  function SetColumn(col: Option<nat>): Option<(nat, Value)> {
    match col
    case None => None
    case Some(c) => Some((c, One))
  }

  /** The cell a key/value pair writes and what it writes there, if anything:
      a flag of a one-hot group, the plan code, or a verbatim copy. */
  function Target(key: Key, value: Value): (t: Option<(nat, Value)>)
    ensures t.Some? ==> t.value.0 < Width && t.value.0 != RiskCol
    ensures key == MedicalHistory || key.Other? ==> t.None?
  {
    match key
    case Gender => SetColumn(GroupColumn(value, ["Male"], [MaleCol]))
    case Region => SetColumn(GroupColumn(value, RegionCategories, RegionGroup))
    case MaritalStatus => SetColumn(GroupColumn(value, ["Unmarried"], [UnmarriedCol]))
    case BmiCategory => SetColumn(GroupColumn(value, BmiCategories, BmiGroup))
    case SmokingStatus => SetColumn(GroupColumn(value, SmokingCategories, SmokingGroup))
    case EmploymentStatus => SetColumn(GroupColumn(value, EmploymentCategories, EmploymentGroup))
    case InsurancePlan => Some((PlanCol, Num(PlanCode(value) as real)))
    case Age => Some((AgeCol, value))
    case NumberOfDependants => Some((DependantsCol, value))
    case IncomeInLakhs => Some((IncomeCol, value))
    case GeneticalRisk => Some((GeneticCol, value))
    case MedicalHistory => None
    case Other(_) => None
  }

  /** A pass of the loop writes exactly the one cell the tables name for the
      pair, and an unrecognised key or category changes nothing. */
  lemma StepWritesTarget(row: seq<Value>, key: Key, value: Value)
    requires |row| == Width
    ensures Target(key, value).None? ==> Step(row, key, value) == row
    ensures Target(key, value).Some? ==>
      Target(key, value).value.0 < Width &&
      Step(row, key, value) == row[Target(key, value).value.0 := Target(key, value).value.1]
  {
    CategoriesDistinct();
    match key
    case Region =>
      assert GroupColumn(value, RegionCategories, RegionGroup) ==
        if value == Text("Northwest") then Some(NorthwestCol)
        else if value == Text("Southeast") then Some(SoutheastCol)
        else if value == Text("Southwest") then Some(SouthwestCol)
        else None;
    case BmiCategory =>
      assert GroupColumn(value, BmiCategories, BmiGroup) ==
        if value == Text("Obesity") then Some(ObesityCol)
        else if value == Text("Overweight") then Some(OverweightCol)
        else if value == Text("Underweight") then Some(UnderweightCol)
        else None;
    case SmokingStatus =>
      assert GroupColumn(value, SmokingCategories, SmokingGroup) ==
        if value == Text("Occasional") then Some(OccasionalCol)
        else if value == Text("Regular") then Some(RegularCol)
        else None;
    case EmploymentStatus =>
      assert GroupColumn(value, EmploymentCategories, EmploymentGroup) ==
        if value == Text("Salaried") then Some(SalariedCol)
        else if value == Text("Self-Employed") then Some(SelfEmployedCol)
        else None;
    case _ =>
  }

  /** map k | k in m && k in keys :: m[k], the entries visited so far. */
  function Restrict(m: map<Key, Value>, keys: seq<Key>): (r: map<Key, Value>)
    ensures forall k :: k in r <==> k in m && k in keys
    ensures forall k :: k in r ==> r[k] == m[k]
  {
    map k | k in m && k in keys :: m[k]
  }

  /** The categories the encoder compares values against are pairwise
      different (the solver does not see this for strings of equal length). */
  lemma CategoriesDistinct()
    ensures "Northwest" != "Southeast" && "Northwest" != "Southwest" && "Southeast" != "Southwest"
    ensures "Obesity" != "Overweight" && "Obesity" != "Underweight" && "Overweight" != "Underweight"
    ensures "Occasional" != "Regular" && "Salaried" != "Self-Employed"
    ensures "Bronze" != "Silver" && "Bronze" != "Gold" && "Silver" != "Gold"
  {
    assert "Northwest"[0] != "Southeast"[0] && "Northwest"[0] != "Southwest"[0];
    assert "Southeast"[5] != "Southwest"[5];
    assert "Bronze"[0] != "Silver"[0];
  }

  /** The dictionary key column i is filled from; the risk score column is
      filled from none in the loop. */
  function ColumnKey(i: nat): Option<Key>
    requires i < Width
  {
    if i == AgeCol then Some(Age)
    else if i == DependantsCol then Some(NumberOfDependants)
    else if i == IncomeCol then Some(IncomeInLakhs)
    else if i == PlanCol then Some(InsurancePlan)
    else if i == GeneticCol then Some(GeneticalRisk)
    else if i == RiskCol then None
    else if i == MaleCol then Some(Gender)
    else if i <= SouthwestCol then Some(Region)
    else if i == UnmarriedCol then Some(MaritalStatus)
    else if i <= UnderweightCol then Some(BmiCategory)
    else if i <= RegularCol then Some(SmokingStatus)
    else Some(EmploymentStatus)
  }

  /** A cell depends on the entry of its own key only. */
  lemma CellFrame(m: map<Key, Value>, key: Key, value: Value, i: nat)
    requires i < Width && ColumnKey(i) != Some(key)
    ensures Cell(m[key := value], i) == Cell(m, i)
  {
  }

  /** A pass of the loop touches only the columns of its own key. */
  lemma StepFrame(row: seq<Value>, key: Key, value: Value, i: nat)
    requires |row| == Width && i < Width && ColumnKey(i) != Some(key)
    ensures Step(row, key, value)[i] == row[i]
  {
  }

  /** On the columns of its own key, a pass of the loop over the cells of the
      entries seen so far gives the cells of the entries seen now. */
  lemma StepOwnColumn(m: map<Key, Value>, key: Key, value: Value, i: nat)
    requires key !in m
    requires i < Width && ColumnKey(i) == Some(key)
    ensures Step(Columns(m), key, value)[i] == Cell(m[key := value], i)
  {
    if i < MaleCol {
      StepOwnField(m, key, value, i);
    } else if i <= UnmarriedCol {
      StepOwnFlag(m, key, value, i);
    } else {
      StepOwnGroupFlag(m, key, value, i);
    }
  }

  lemma StepOwnField(m: map<Key, Value>, key: Key, value: Value, i: nat)
    requires key !in m
    requires i < MaleCol && ColumnKey(i) == Some(key)
    ensures Step(Columns(m), key, value)[i] == Cell(m[key := value], i)
  {
  }

  lemma StepOwnFlag(m: map<Key, Value>, key: Key, value: Value, i: nat)
    requires key !in m
    requires MaleCol <= i <= UnmarriedCol && ColumnKey(i) == Some(key)
    ensures Step(Columns(m), key, value)[i] == Cell(m[key := value], i)
  {
    CategoriesDistinct();
  }

  lemma StepOwnGroupFlag(m: map<Key, Value>, key: Key, value: Value, i: nat)
    requires key !in m
    requires UnmarriedCol < i < Width && ColumnKey(i) == Some(key)
    ensures Step(Columns(m), key, value)[i] == Cell(m[key := value], i)
  {
    CategoriesDistinct();
  }

  /** Visiting a new key extends the column-wise encoding by one Step: the
      row the loop builds does not depend on the order of the keys. */
  lemma StepExtends(m: map<Key, Value>, key: Key, value: Value)
    requires key !in m
    ensures Step(Columns(m), key, value) == Columns(m[key := value])
  {
    var row := Step(Columns(m), key, value);
    forall i | 0 <= i < Width
      ensures row[i] == Cell(m[key := value], i)
    {
      if ColumnKey(i) == Some(key) {
        StepOwnColumn(m, key, value, i);
      } else {
        CellFrame(m, key, value, i);
        StepFrame(Columns(m), key, value, i);
      }
    }
  }

  /** An entry the loop does not recognise leaves the row unchanged. */
  lemma UnrecognisedEntryIgnored(m: map<Key, Value>, key: Key, value: Value)
    requires key !in m
    requires Target(key, value).None?
    ensures Columns(m[key := value]) == Columns(m)
  {
    StepExtends(m, key, value);
    StepWritesTarget(Columns(m), key, value);
  }

  // ---------------------------------------------------------------------------
  // Risk score, segment and scaling

  /** input_dict.get('Medical History', 'no disease'). */
  function History(input: map<Key, Value>): (h: Value)
    ensures MedicalHistory in input ==> h == input[MedicalHistory]
    ensures MedicalHistory !in input ==> h == Text("no disease")
  {
    Lookup(input, MedicalHistory, Text("no disease"))
  }

  /** The row after the loop and the risk score assignment. */
  function Encode(input: map<Key, Value>): (r: Result<seq<Value>>)
    ensures r.Err? <==> !History(input).Text?
    ensures r.Err? ==> r.error == HistoryNotText
    ensures r.Ok? ==> |r.value| == Width
    ensures r.Ok? ==> r.value[RiskCol] == Num(Risk.NormalizedRisk(History(input).s))
    ensures r.Ok? ==> forall i :: 0 <= i < Width && i != RiskCol ==> r.value[i] == Columns(input)[i]
  {
    var h := History(input);
    if h.Text? then Ok(Columns(input)[RiskCol := Num(Risk.NormalizedRisk(h.s))])
    else Err(HistoryNotText)
  }

  /** The segment of an age: young up to and including 25, a TypeError for text. */
  function SegmentOf(age: Value): (r: Result<Segment>)
    ensures r.Ok? <==> age.Num?
    ensures r == Ok(Young) <==> age.Num? && age.x <= YoungMaxAge
    ensures r == Ok(Rest) <==> age.Num? && age.x > YoungMaxAge
  {
    match age
    case Num(x) => Ok(if x <= YoungMaxAge then Young else Rest)
    case Text(_) => Err(AgeNotComparable)
  }

  /** A transform applied to the selected columns of the row. */
  type Transform = seq<Value> -> seq<Value>

  /** A loaded scaler artifact: the columns it scales and the scaler, if any. */
  datatype ScalerArtifact = ScalerArtifact(colsToScale: seq<string>, scaler: Option<Transform>)

  /** The artifact used when the stored ones cannot be loaded. */
  const FallbackScaler: ScalerArtifact := ScalerArtifact(["age", "income_lakhs"], None)

  /** The fallback scaler's column names are the age and income cells. */
  lemma FallbackScalerColumns()
    ensures ColumnIndices(FallbackScaler.colsToScale) == Ok([AgeCol, IncomeCol])
  {
    AgeAndIncomeIndices();
    IndicesOfPair("age", "income_lakhs", AgeCol, IncomeCol);
  }

  lemma IndicesOfPair(a: string, b: string, i: nat, j: nat)
    requires ColumnIndex(a) == Some(i) && ColumnIndex(b) == Some(j)
    ensures ColumnIndices([a, b]) == Ok([i, j])
  {
    IndicesOfOne(b, j);
    assert [a, b][0] == a && [a, b][1..] == [b];
    assert [i] + [j] == [i, j];
  }

  lemma IndicesOfOne(b: string, j: nat)
    requires ColumnIndex(b) == Some(j)
    ensures ColumnIndices([b]) == Ok([j])
  {
    assert [b][0] == b && [b][1..] == [];
    assert ColumnIndices([]) == Ok([]);
    assert [j] + [] == [j];
  }

  lemma AgeAndIncomeIndices()
    ensures ColumnIndex("age") == Some(AgeCol)
    ensures ColumnIndex("income_lakhs") == Some(IncomeCol)
  {
    assert ExpectedColumns[0] == "age";
    assert ExpectedColumns[0][0] != "income_lakhs"[0];
    assert ExpectedColumns[1][0] != "income_lakhs"[0];
    assert ExpectedColumns[2] == "income_lakhs";
  }

  /** The positions of the named columns, or UnknownColumn. */
  function ColumnIndices(names: seq<string>): (r: Result<seq<nat>>)
    ensures r.Ok? ==> |r.value| == |names|
    ensures r.Ok? ==> forall j :: 0 <= j < |names| ==> ColumnIndex(names[j]) == Some(r.value[j])
    ensures r.Err? ==> r.error == UnknownColumn && exists j :: 0 <= j < |names| && ColumnIndex(names[j]).None?
  {
    if |names| == 0 then Ok([])
    else
      match ColumnIndex(names[0])
      case None => Err(UnknownColumn)
      case Some(i) =>
        match ColumnIndices(names[1..])
        case Err(e) => Err(e)
        case Ok(rest) => Ok([i] + rest)
  }

  /** df[cols] = values: writes values[j] into column cols[j], left to right. */
  function WriteColumns(row: seq<Value>, cols: seq<nat>, values: seq<Value>): (r: seq<Value>)
    requires |cols| == |values|
    requires forall j :: 0 <= j < |cols| ==> cols[j] < |row|
    ensures |r| == |row|
    ensures forall i :: 0 <= i < |row| && i !in cols ==> r[i] == row[i]
    ensures (forall j, k :: 0 <= j < k < |cols| ==> cols[j] != cols[k]) ==>
      forall j :: 0 <= j < |cols| ==> r[cols[j]] == values[j]
    decreases |cols|
  {
    if |cols| == 0 then row
    else WriteColumns(row[cols[0] := values[0]], cols[1..], values[1..])
  }

  /** df[cols]: the cells of the row at the given positions, in that order. */
  function Select(row: seq<Value>, cols: seq<nat>): (cells: seq<Value>)
    requires forall j :: 0 <= j < |cols| ==> cols[j] < |row|
    ensures |cells| == |cols|
    ensures forall j :: 0 <= j < |cols| ==> cells[j] == row[cols[j]]
  {
    seq(|cols|, j requires 0 <= j < |cols| => row[cols[j]])
  }

  /** No column name is listed twice. */
  predicate DistinctNames(names: seq<string>) {
    forall j, k :: 0 <= j < k < |names| ==> names[j] != names[k]
  }

  /** Runs the scaler, if there is one, over its columns of the row: it fails
      with UnknownColumn exactly when a listed name is not a column, with
      ShapeMismatch exactly when the transform returns another number of cells,
      and otherwise writes the transform's output into the listed columns. */
  function Scale(row: seq<Value>, artifact: ScalerArtifact): (r: Result<seq<Value>>)
    requires |row| == Width
    ensures artifact.scaler.None? ==> r == Ok(row)
    ensures r.Ok? ==> |r.value| == Width
    ensures artifact.scaler.Some? ==>
      (r == Err(UnknownColumn) <==>
        exists j :: 0 <= j < |artifact.colsToScale| && ColumnIndex(artifact.colsToScale[j]).None?)
    ensures artifact.scaler.Some? && ColumnIndices(artifact.colsToScale).Ok? ==>
      var cols := ColumnIndices(artifact.colsToScale).value;
      var out := artifact.scaler.value(Select(row, cols));
      (r.Ok? <==> |out| == |cols|)
      && (r.Err? ==> r.error == ShapeMismatch)
      && (r.Ok? ==> forall i :: 0 <= i < Width && i !in cols ==> r.value[i] == row[i])
      && (r.Ok? && DistinctNames(artifact.colsToScale) ==>
            forall j :: 0 <= j < |cols| ==> r.value[cols[j]] == out[j])
  {
    match artifact.scaler
    case None => Ok(row)
    case Some(transform) =>
      match ColumnIndices(artifact.colsToScale)
      case Err(e) => Err(e)
      case Ok(cols) =>
        var scaled := transform(Select(row, cols));
        if |scaled| != |cols| then Err(ShapeMismatch)
        else
          DistinctColumns(artifact.colsToScale, cols);
          Ok(WriteColumns(row, cols, scaled))
  }

  /** Distinct column names have distinct positions. */
  lemma DistinctColumns(names: seq<string>, cols: seq<nat>)
    requires ColumnIndices(names) == Ok(cols)
    ensures DistinctNames(names) ==> forall j, k :: 0 <= j < k < |cols| ==> cols[j] != cols[k]
  {
    forall j, k | 0 <= j < k < |cols| && DistinctNames(names) ensures cols[j] != cols[k] {
      assert ExpectedColumns[cols[j]] == names[j] && ExpectedColumns[cols[k]] == names[k];
    }
  }

  /** The segment whose scaler preprocess_input uses, chosen by the age cell. */
  function ScalerSegment(input: map<Key, Value>): (r: Result<Segment>)
    ensures Encode(input).Err? ==> r == Err(HistoryNotText)
    ensures Encode(input).Ok? ==> r == SegmentOf(Lookup(input, Age, Zero))
  {
    match Encode(input)
    case Err(e) => Err(e)
    case Ok(row) => SegmentOf(row[AgeCol])
  }

  /** preprocess_input, as a function of the dictionary's contents. */
  function PreprocessSpec(input: map<Key, Value>, young: ScalerArtifact, rest: ScalerArtifact): (r: Result<seq<Value>>)
    ensures r.Ok? ==> |r.value| == Width
  {
    match ScalerSegment(input)
    case Err(e) => Err(e)
    case Ok(segment) => Scale(Encode(input).value, if segment == Young then young else rest)
  }

  // ---------------------------------------------------------------------------
  // The encoder itself

  /** One pass of the loop of preprocess_input, on the frame's row. */
  method ApplyEntry(df: array<Value>, key: Key, value: Value)
    requires df.Length == Width
    modifies df
    ensures df[..] == Step(old(df[..]), key, value)
  {
    if key == Gender && value == Text("Male") {
      df[MaleCol] := One;
    } else if key == Region {
      if value == Text("Northwest") {
        df[NorthwestCol] := One;
      } else if value == Text("Southeast") {
        df[SoutheastCol] := One;
      } else if value == Text("Southwest") {
        df[SouthwestCol] := One;
      }
    } else if key == MaritalStatus && value == Text("Unmarried") {
      df[UnmarriedCol] := One;
    } else if key == BmiCategory {
      if value == Text("Obesity") {
        df[ObesityCol] := One;
      } else if value == Text("Overweight") {
        df[OverweightCol] := One;
      } else if value == Text("Underweight") {
        df[UnderweightCol] := One;
      }
    } else if key == SmokingStatus {
      if value == Text("Occasional") {
        df[OccasionalCol] := One;
      } else if value == Text("Regular") {
        df[RegularCol] := One;
      }
    } else if key == EmploymentStatus {
      if value == Text("Salaried") {
        df[SalariedCol] := One;
      } else if value == Text("Self-Employed") {
        df[SelfEmployedCol] := One;
      }
    } else if key == InsurancePlan {
      df[PlanCol] := Num(PlanCode(value) as real);
    } else if key == Age {
      df[AgeCol] := value;
    } else if key == NumberOfDependants {
      df[DependantsCol] := value;
    } else if key == IncomeInLakhs {
      df[IncomeCol] := value;
    } else if key == GeneticalRisk {
      df[GeneticCol] := value;
    }
  }

  /** The row after the loop has visited the first i keys. */
  function Visited(keys: seq<Key>, input: map<Key, Value>, i: nat): seq<Value>
    requires i <= |keys|
  {
    Columns(Restrict(input, keys[..i]))
  }

  /** Before the loop no entry has been visited and the row is all zero. */
  lemma NothingVisited(keys: seq<Key>, input: map<Key, Value>)
    ensures Visited(keys, input, 0) == seq(Width, _ => Zero)
  {
    assert Restrict(input, keys[..0]) == map[];
  }

  /** The entries seen after one more key of an iteration order: one new entry. */
  lemma SeenExtend(keys: seq<Key>, input: map<Key, Value>, i: nat)
    requires IsIterationOrder(keys, input)
    requires i < |keys|
    ensures keys[i] in input && keys[i] !in Restrict(input, keys[..i])
    ensures Restrict(input, keys[..i + 1]) == Restrict(input, keys[..i])[keys[i] := input[keys[i]]]
  {
    assert keys[i] !in keys[..i];
    assert keys[..i + 1] == keys[..i] + [keys[i]];
  }

  /** Visiting the next key of an iteration order is one Step. */
  lemma VisitNext(keys: seq<Key>, input: map<Key, Value>, i: nat)
    requires IsIterationOrder(keys, input)
    requires i < |keys|
    ensures |Visited(keys, input, i)| == Width
    ensures Visited(keys, input, i + 1) == Step(Visited(keys, input, i), keys[i], input[keys[i]])
  {
    SeenExtend(keys, input, i);
    StepExtends(Restrict(input, keys[..i]), keys[i], input[keys[i]]);
  }

  /** After the loop every entry has been visited. */
  lemma EverythingVisited(keys: seq<Key>, input: map<Key, Value>)
    requires IsIterationOrder(keys, input)
    ensures Visited(keys, input, |keys|) == Columns(input)
  {
    assert keys[..|keys|] == keys;
    var all := Restrict(input, keys);
    assert all.Keys == input.Keys;
    assert all == input;
  }

  /** The loop of preprocess_input: a zeroed row, then one pass per key in
      dictionary order. */
  method FillRow(keys: seq<Key>, input: map<Key, Value>) returns (df: array<Value>)
    requires IsIterationOrder(keys, input)
    ensures fresh(df)
    ensures df[..] == Columns(input)
  {
    df := new Value[Width](_ => Zero);
    NothingVisited(keys, input);
    var i := 0;
    while i < |keys|
      invariant 0 <= i <= |keys|
      invariant df.Length == Width
      invariant df[..] == Visited(keys, input, i)
    {
      VisitNext(keys, input, i);
      ApplyEntry(df, keys[i], input[keys[i]]);
      i := i + 1;
    }
    EverythingVisited(keys, input);
  }

  /** preprocess_input: fill the row, set the risk score, pick the scaler by
      the age cell and apply it. */
  method Preprocess(keys: seq<Key>, input: map<Key, Value>, young: ScalerArtifact, rest: ScalerArtifact)
    returns (r: Result<seq<Value>>)
    requires IsIterationOrder(keys, input)
    ensures r == PreprocessSpec(input, young, rest)
  {
    var df := FillRow(keys, input);
    var history := History(input);
    if !history.Text? {
      return Err(HistoryNotText);
    }
    df[RiskCol] := Num(Risk.NormalizedRisk(history.s));
    var row := df[..];
    assert row == Encode(input).value;
    var segment := SegmentOf(row[AgeCol]);
    if segment.Err? {
      return Err(segment.error);
    }
    var scalerObj := if segment.value == Young then young else rest;
    r := Scale(row, scalerObj);
  }

  // ---------------------------------------------------------------------------
  // Properties of the encoding

  /** The number of cells of group that hold One. */
  function CountOnes(row: seq<Value>, group: seq<nat>): (n: nat)
    requires forall j :: 0 <= j < |group| ==> group[j] < |row|
    ensures n <= |group|
  {
    if |group| == 0 then 0
    else (if row[group[0]] == One then 1 else 0) + CountOnes(row, group[1..])
  }

  predicate AllZero(row: seq<Value>, group: seq<nat>)
    requires forall j :: 0 <= j < |group| ==> group[j] < |row|
  {
    forall j :: 0 <= j < |group| ==> row[group[j]] == Zero
  }

  /** value names one of the categories. */
  predicate Listed(value: Value, categories: seq<string>) {
    value.Text? && value.s in categories
  }

  /** Cells that are flags for distinct categories: exactly one of them is 1
      when the value is listed, and all are 0 otherwise. */
  lemma {:induction false} FlagGroupCount(row: seq<Value>, value: Value, categories: seq<string>, cols: seq<nat>)
    requires |categories| == |cols|
    requires forall j :: 0 <= j < |cols| ==> cols[j] < |row|
    requires forall j, k :: 0 <= j < k < |categories| ==> categories[j] != categories[k]
    requires forall j :: 0 <= j < |cols| ==> row[cols[j]] == if value == Text(categories[j]) then One else Zero
    ensures CountOnes(row, cols) == if Listed(value, categories) then 1 else 0
    ensures !Listed(value, categories) ==> AllZero(row, cols)
    decreases |cols|
  {
    if |cols| > 0 {
      FlagGroupCount(row, value, categories[1..], cols[1..]);
      assert categories == [categories[0]] + categories[1..];
      if value == Text(categories[0]) {
        assert value.s !in categories[1..];
      }
    }
  }

  /** In each one-hot group exactly one column is 1 when the value is one of
      the listed categories, and the whole group is 0 for any other value
      (the baseline category) or when the key is absent. */
  lemma RegionOneHot(input: map<Key, Value>)
    ensures CountOnes(Columns(input), RegionGroup) == if Listed(Lookup(input, Region, Zero), RegionCategories) then 1 else 0
    ensures !Listed(Lookup(input, Region, Zero), RegionCategories) ==> AllZero(Columns(input), RegionGroup)
  {
    CategoriesDistinct();
    FlagGroupCount(Columns(input), Lookup(input, Region, Zero), RegionCategories, RegionGroup);
  }

  /** As RegionOneHot, for the BMI group. */
  lemma BmiOneHot(input: map<Key, Value>)
    ensures CountOnes(Columns(input), BmiGroup) == if Listed(Lookup(input, BmiCategory, Zero), BmiCategories) then 1 else 0
    ensures !Listed(Lookup(input, BmiCategory, Zero), BmiCategories) ==> AllZero(Columns(input), BmiGroup)
  {
    CategoriesDistinct();
    FlagGroupCount(Columns(input), Lookup(input, BmiCategory, Zero), BmiCategories, BmiGroup);
  }

  /** As RegionOneHot, for the smoking group. */
  lemma SmokingOneHot(input: map<Key, Value>)
    ensures CountOnes(Columns(input), SmokingGroup) == if Listed(Lookup(input, SmokingStatus, Zero), SmokingCategories) then 1 else 0
    ensures !Listed(Lookup(input, SmokingStatus, Zero), SmokingCategories) ==> AllZero(Columns(input), SmokingGroup)
  {
    CategoriesDistinct();
    FlagGroupCount(Columns(input), Lookup(input, SmokingStatus, Zero), SmokingCategories, SmokingGroup);
  }

  /** As RegionOneHot, for the employment group. */
  lemma EmploymentOneHot(input: map<Key, Value>)
    ensures CountOnes(Columns(input), EmploymentGroup) == if Listed(Lookup(input, EmploymentStatus, Zero), EmploymentCategories) then 1 else 0
    ensures !Listed(Lookup(input, EmploymentStatus, Zero), EmploymentCategories) ==> AllZero(Columns(input), EmploymentGroup)
  {
    CategoriesDistinct();
    FlagGroupCount(Columns(input), Lookup(input, EmploymentStatus, Zero), EmploymentCategories, EmploymentGroup);
  }

  /** The binary flags are 1 exactly for 'Male' and 'Unmarried'. */
  lemma BinaryFlags(input: map<Key, Value>)
    ensures Columns(input)[MaleCol] == One <==> Lookup(input, Gender, Zero) == Text("Male")
    ensures Columns(input)[MaleCol] in {Zero, One}
    ensures Columns(input)[UnmarriedCol] == One <==> Lookup(input, MaritalStatus, Zero) == Text("Unmarried")
    ensures Columns(input)[UnmarriedCol] in {Zero, One}
  {
  }

  /** The plan is coded Bronze 1, Silver 2, Gold 3, anything else 1, and stays 0
      when the key is absent. */
  lemma InsurancePlanCode(input: map<Key, Value>)
    ensures InsurancePlan !in input ==> Columns(input)[PlanCol] == Zero
    ensures InsurancePlan in input && input[InsurancePlan] == Text("Bronze") ==> Columns(input)[PlanCol] == Num(1.0)
    ensures InsurancePlan in input && input[InsurancePlan] == Text("Silver") ==> Columns(input)[PlanCol] == Num(2.0)
    ensures InsurancePlan in input && input[InsurancePlan] == Text("Gold") ==> Columns(input)[PlanCol] == Num(3.0)
    ensures InsurancePlan in input && input[InsurancePlan] !in {Text("Bronze"), Text("Silver"), Text("Gold")}
      ==> Columns(input)[PlanCol] == Num(1.0)
  {
  }

  /** The four numeric fields are copied verbatim, or stay 0 when absent, and the
      risk score always comes from the medical history, 0 by default. */
  lemma CopiedFieldsAndRisk(input: map<Key, Value>)
    requires History(input).Text?
    ensures Encode(input).Ok?
    ensures Encode(input).value[AgeCol] == Lookup(input, Age, Zero)
    ensures Encode(input).value[DependantsCol] == Lookup(input, NumberOfDependants, Zero)
    ensures Encode(input).value[IncomeCol] == Lookup(input, IncomeInLakhs, Zero)
    ensures Encode(input).value[GeneticCol] == Lookup(input, GeneticalRisk, Zero)
    ensures MedicalHistory !in input ==> Encode(input).value[RiskCol] == Zero
  {
    Risk.DefaultHistoryScoresZero();
  }

  /** With the fallback artifact nothing is scaled. */
  lemma FallbackScalesNothing(input: map<Key, Value>)
    requires Encode(input).Ok? && SegmentOf(Encode(input).value[AgeCol]).Ok?
    ensures PreprocessSpec(input, FallbackScaler, FallbackScaler) == Encode(input)
  {
  }

  /** A scaler with a distinct set of known columns rewrites exactly those columns. */
  lemma ScaleRewritesItsColumns(row: seq<Value>, artifact: ScalerArtifact)
    requires |row| == Width && artifact.scaler.Some?
    requires ColumnIndices(artifact.colsToScale).Ok?
    requires DistinctNames(artifact.colsToScale)
    ensures Scale(row, artifact).Ok? ==>
      forall i :: 0 <= i < Width && ExpectedColumns[i] !in artifact.colsToScale ==> Scale(row, artifact).value[i] == row[i]
  {
  }
}
