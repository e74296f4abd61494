/** The medical-history risk scorer: a history such as "Diabetes & Thyroid" is
    lower-cased, split on the literal separator " & ", each part is stripped of
    surrounding whitespace and looked up in a fixed weight table (unknown names
    weigh 0), the weights are summed and the sum is normalised by 14. */
module Risk {

  /** The fixed weight of each known condition. */
  const RiskScores: map<string, nat> :=
    map["diabetes" := 6, "heart disease" := 8, "high blood pressure" := 6,
        "thyroid" := 5, "no disease" := 0, "none" := 0]

  /** The largest single weight in RiskScores. */
  const MaxWeight: nat := 8

  /** The bounds used for normalisation. */
  const MaxScore: int := 14
  const MinScore: int := 0

  /** The literal separator between conditions. */
  const Separator: string := " & "

  // ---------------------------------------------------------------------------
  // Lower-casing (ASCII letters only)

  predicate IsUpper(c: char) { 'A' <= c <= 'Z' }

  function LowerChar(c: char): (d: char)
    ensures !IsUpper(d)
    ensures IsUpper(c) ==> d as int == c as int + 32
    ensures !IsUpper(c) ==> d == c
  {
    if IsUpper(c) then (c as int + 32) as char else c
  }

  /** The string with every ASCII capital replaced by its small letter. */
  function Lower(s: string): (r: string)
    ensures |r| == |s|
    ensures forall i :: 0 <= i < |r| ==> !IsUpper(r[i])
    ensures forall i :: 0 <= i < |s| && !IsUpper(s[i]) ==> r[i] == s[i]
    ensures forall i :: 0 <= i < |s| && IsUpper(s[i]) ==> r[i] as int == s[i] as int + 32
  {
    seq(|s|, i requires 0 <= i < |s| => LowerChar(s[i]))
  }

  lemma LowerAppend(a: string, b: string)
    ensures Lower(a + b) == Lower(a) + Lower(b)
  {
    assert forall i :: 0 <= i < |a + b| ==> Lower(a + b)[i] == (Lower(a) + Lower(b))[i];
  }

  // ---------------------------------------------------------------------------
  // Stripping whitespace

  /** The characters the str.strip() of Python removes. */
  predicate IsSpace(c: char) {
    (9 <= c as int <= 13) || (28 <= c as int <= 32) || c as int == 0x85 || c as int == 0xA0
    || c as int == 0x1680 || (0x2000 <= c as int <= 0x200A) || c as int == 0x2028
    || c as int == 0x2029 || c as int == 0x202F || c as int == 0x205F || c as int == 0x3000
  }

  predicate AllSpace(s: string) { forall i :: 0 <= i < |s| ==> IsSpace(s[i]) }

  /** The number of whitespace characters s starts with. */
  function LeadingSpace(s: string): (k: nat)
    ensures k <= |s| && AllSpace(s[..k])
    ensures k == |s| || !IsSpace(s[k])
  {
    if |s| > 0 && IsSpace(s[0]) then
      var k := LeadingSpace(s[1..]);
      assert forall i :: 1 <= i < k + 1 ==> s[i] == s[1..][..k][i - 1];
      k + 1
    else 0
  }

  /** The number of whitespace characters s ends with. */
  function TrailingSpace(s: string): (k: nat)
    ensures k <= |s| && AllSpace(s[|s| - k..])
    ensures k == |s| || !IsSpace(s[|s| - k - 1])
  {
    if |s| > 0 && IsSpace(s[|s| - 1]) then
      var k := TrailingSpace(s[..|s| - 1]);
      assert forall i :: |s| - k - 1 <= i < |s| - 1 ==> s[i] == s[..|s| - 1][i];
      k + 1
    else 0
  }

  /** Neither end of s is whitespace. */
  predicate Trimmed(s: string) {
    s == [] || (!IsSpace(s[0]) && !IsSpace(s[|s| - 1]))
  }

  /** Python's s.strip(): s without its leading and trailing whitespace. */
  function Strip(s: string): (r: string)
    ensures Trimmed(r)
  {
    var l := s[LeadingSpace(s)..];
    l[..|l| - TrailingSpace(l)]
  }

  /** Stripping removes whitespace only: s is Strip(s) padded on both sides. */
  lemma StripDecomposes(s: string) returns (a: string, b: string)
    ensures AllSpace(a) && AllSpace(b) && s == a + Strip(s) + b
  {
    var i := LeadingSpace(s);
    var l := s[i..];
    var j := TrailingSpace(l);
    a, b := s[..i], l[|l| - j..];
    CutThree(s, i, |l| - j);
  }

  lemma CutThree(s: string, i: nat, n: nat)
    requires i + n <= |s|
    ensures s == s[..i] + s[i..][..n] + s[i..][n..]
  {
    assert s[i..][..n] + s[i..][n..] == s[i..];
  }

  lemma AllSpaceAppend(a: string, b: string)
    requires AllSpace(a) && AllSpace(b)
    ensures AllSpace(a + b)
  {
    assert forall i :: |a| <= i < |a + b| ==> (a + b)[i] == b[i - |a|];
  }

  /** Whatever way s is written as whitespace, a trimmed core and whitespace,
      that core is Strip(s). */
  lemma StripUnique(a: string, q: string, b: string)
    requires AllSpace(a) && AllSpace(b) && Trimmed(q)
    ensures Strip(a + q + b) == q
  {
    var s := a + q + b;
    var i := LeadingSpace(s);
    if q == [] {
      assert s == a + b;
      assert AllSpace(s);
      assert i == |s|;
    } else {
      assert s[|a|] == q[0];
      assert i == |a|;
      var l := s[i..];
      assert l == q + b;
      var j := TrailingSpace(l);
      assert l[|q| - 1] == q[|q| - 1];
      assert j == |b|;
      assert l[..|l| - j] == q;
    }
  }

  lemma Regroup(a: string, a': string, q: string, b': string, b: string)
    ensures a + (a' + q + b') + b == (a + a') + q + (b' + b)
  {
  }

  /** Whitespace around a condition name does not change what it strips to. */
  lemma StripPadded(a: string, p: string, b: string)
    requires AllSpace(a) && AllSpace(b)
    ensures Strip(a + p + b) == Strip(p)
  {
    var a', b' := StripDecomposes(p);
    Regroup(a, a', Strip(p), b', b);
    AllSpaceAppend(a, a');
    AllSpaceAppend(b', b);
    StripUnique(a + a', Strip(p), b' + b);
  }

  // ---------------------------------------------------------------------------
  // Splitting on " & "

  /** The separator occurs in s starting at position i. */
  predicate SepAt(s: string, i: nat) {
    i + |Separator| <= |s| && s[i..i + |Separator|] == Separator
  }

  predicate ContainsSep(s: string) {
    exists i: nat :: i < |s| && SepAt(s, i)
  }

  /** Scans rest left to right; cur is the part collected since the last separator. */
  function SplitFrom(rest: string, cur: string): (r: seq<string>)
    ensures |r| >= 1
    decreases |rest|
  {
    if |rest| == 0 then [cur]
    else if SepAt(rest, 0) then [cur] + SplitFrom(rest[|Separator|..], "")
    else SplitFrom(rest[1..], cur + [rest[0]])
  }

  /** Python's s.split(" & "). */
  function Split(s: string): (r: seq<string>)
    ensures |r| >= 1
  {
    SplitFrom(s, "")
  }

  /** Python's " & ".join(parts). */
  function Join(parts: seq<string>): string {
    if |parts| == 0 then ""
    else if |parts| == 1 then parts[0]
    else parts[0] + Separator + Join(parts[1..])
  }

  lemma {:induction false} JoinSplitFrom(rest: string, cur: string)
    ensures Join(SplitFrom(rest, cur)) == cur + rest
    decreases |rest|, 1
  {
    if |rest| == 0 {
      assert cur + rest == cur;
    } else if SepAt(rest, 0) {
      JoinSplitAtSeparator(rest, cur);
    } else {
      JoinSplitFrom(rest[1..], cur + [rest[0]]);
      assert cur + [rest[0]] + rest[1..] == cur + rest;
    }
  }

  lemma {:induction false} JoinSplitAtSeparator(rest: string, cur: string)
    requires SepAt(rest, 0)
    ensures Join(SplitFrom(rest, cur)) == cur + rest
    decreases |rest|, 0
  {
    var rest' := rest[|Separator|..];
    var tail := SplitFrom(rest', "");
    assert SplitFrom(rest, cur) == [cur] + tail;
    JoinSplitFrom(rest', "");
    JoinCons(cur, tail);
    SeparatorThenRest(cur, rest);
  }

  lemma SeparatorThenRest(cur: string, rest: string)
    requires SepAt(rest, 0)
    ensures cur + Separator + ("" + rest[|Separator|..]) == cur + rest
  {
    assert rest == Separator + rest[|Separator|..];
    assert "" + rest[|Separator|..] == rest[|Separator|..];
  }

  lemma JoinCons(part: string, tail: seq<string>)
    requires |tail| >= 1
    ensures Join([part] + tail) == part + Separator + Join(tail)
  {
    assert ([part] + tail)[1..] == tail;
  }

  /** Splitting loses nothing: joining the parts gives the history back. */
  lemma JoinSplit(s: string)
    ensures Join(Split(s)) == s
  {
    JoinSplitFrom(s, "");
  }

  lemma {:induction false} SplitFromNoSeparator(rest: string, cur: string)
    requires forall j: nat :: j < |cur| ==> !SepAt(cur + rest, j)
    ensures forall p :: p in SplitFrom(rest, cur) ==> !ContainsSep(p)
    decreases |rest|
  {
    if |rest| == 0 {
      assert cur + rest == cur;
    } else if SepAt(rest, 0) {
      forall j: nat | SepAt(cur, j) ensures SepAt(cur + rest, j) {
        assert (cur + rest)[j..j + |Separator|] == cur[j..j + |Separator|];
      }
      SplitFromNoSeparator(rest[|Separator|..], "");
    } else {
      var cur' := cur + [rest[0]];
      assert cur' + rest[1..] == cur + rest;
      SplitFromNoSeparator(rest[1..], cur');
    }
  }

  /** No part that Split returns contains the separator. */
  lemma SplitPartsHaveNoSeparator(s: string)
    ensures forall p :: p in Split(s) ==> !ContainsSep(p)
  {
    SplitFromNoSeparator(s, "");
  }

  lemma {:induction false} SplitFromPlain(p: string, cur: string)
    requires '&' !in p
    ensures SplitFrom(p, cur) == [cur + p]
    decreases |p|
  {
    if |p| == 0 {
      assert cur + p == cur;
    } else {
      assert !SepAt(p, 0) by { if |p| >= 3 { assert p[1] != '&'; } }
      assert cur + [p[0]] + p[1..] == cur + p;
      SplitFromPlain(p[1..], cur + [p[0]]);
    }
  }

  lemma {:induction false} SplitFromPlainThenSep(p: string, cur: string, tail: string)
    requires '&' !in p
    ensures SplitFrom(p + Separator + tail, cur) == [cur + p] + SplitFrom(tail, "")
    decreases |p|
  {
    var rest := p + Separator + tail;
    if |p| == 0 {
      assert rest == Separator + tail;
      assert SepAt(rest, 0);
      assert rest[|Separator|..] == tail;
      assert cur + p == cur;
    } else {
      assert rest[1] != '&' by {
        if |p| >= 2 { assert rest[1] == p[1]; } else { assert rest[1] == Separator[0]; }
      }
      assert !SepAt(rest, 0);
      assert rest[1..] == p[1..] + Separator + tail;
      assert cur + [p[0]] + p[1..] == cur + p;
      SplitFromPlainThenSep(p[1..], cur + [p[0]], tail);
    }
  }

  /** No part before a cut ends in " &". */
  predicate CutsLeftmost(parts: seq<string>) {
    forall k :: 0 <= k < |parts| - 1 ==> !ContainsSep(parts[k] + " ")
  }

  /** Python's split scans left to right and cuts at the first separator it
      meets: no part before a cut ends in " &", since then the separator would
      have started one character earlier. */
  lemma {:induction false} SplitFromLeftmost(rest: string, cur: string)
    requires forall j: nat :: j < |cur| ==> !SepAt(cur + rest, j)
    ensures CutsLeftmost(SplitFrom(rest, cur))
    decreases |rest|
  {
    if |rest| == 0 {
    } else if SepAt(rest, 0) {
      assert rest[0] == rest[..|Separator|][0] == ' ';
      forall j: nat | j < |cur + " "| ensures !SepAt(cur + " ", j) {
        if j + |Separator| <= |cur + " "| {
          assert j < |cur| && !SepAt(cur + rest, j);
          assert (cur + " ")[j..j + |Separator|] == (cur + rest)[j..j + |Separator|];
        }
      }
      var tail := SplitFrom(rest[|Separator|..], "");
      assert SplitFrom(rest, cur) == [cur] + tail;
      SplitFromLeftmost(rest[|Separator|..], "");
      assert !ContainsSep(cur + " ");
      forall k | 0 <= k < |[cur] + tail| - 1 ensures !ContainsSep(([cur] + tail)[k] + " ") {
        if k > 0 {
          assert ([cur] + tail)[k] == tail[k - 1];
        }
      }
    } else {
      var cur' := cur + [rest[0]];
      assert cur' + rest[1..] == cur + rest;
      assert SplitFrom(rest, cur) == SplitFrom(rest[1..], cur');
      SplitFromLeftmost(rest[1..], cur');
    }
  }

  /** No part that Split returns except the last ends in " &". */
  lemma SplitIsLeftmost(s: string)
    ensures CutsLeftmost(Split(s))
  {
    assert Split(s) == SplitFrom(s, "");
    SplitFromLeftmost(s, "");
  }

  /** Scanning past a stretch p in which no separator starts only extends the
      current part. */
  lemma {:induction false} SplitFromScan(p: string, rest: string, cur: string)
    requires forall j: nat :: j < |p| ==> !SepAt(p + rest, j)
    ensures SplitFrom(p + rest, cur) == SplitFrom(rest, cur + p)
    decreases |p|
  {
    if |p| == 0 {
      assert p + rest == rest && cur + p == cur;
    } else {
      assert !SepAt(p + rest, 0);
      var p' := p[1..];
      assert (p + rest)[1..] == p' + rest;
      forall j: nat | j < |p'| ensures !SepAt(p' + rest, j) {
        assert !SepAt(p + rest, j + 1);
        if j + |Separator| <= |p' + rest| {
          assert (p' + rest)[j..j + |Separator|] == (p + rest)[j + 1..j + 1 + |Separator|];
        }
      }
      SplitFromScan(p', rest, cur + [p[0]]);
      assert cur + [p[0]] + p' == cur + p;
    }
  }

  /** A part followed by the separator, where the part neither contains the
      separator nor ends in " &", is exactly the first part split cuts off. */
  lemma SplitFromFirstPart(p: string, tail: string)
    requires !ContainsSep(p) && !ContainsSep(p + " ")
    ensures SplitFrom(p + Separator + tail, "") == [p] + SplitFrom(tail, "")
  {
    var s := p + Separator + tail;
    forall j: nat | j < |p| ensures !SepAt(s, j) {
      if j + 1 == |p| {
        if j + |Separator| <= |s| {
          assert s[j..j + |Separator|][1] == s[j + 1] == Separator[0];
        }
      } else {
        assert !SepAt(p + " ", j);
        assert (p + " ")[j..j + |Separator|] == s[j..j + |Separator|];
      }
    }
    assert s == p + (Separator + tail);
    SplitFromScan(p, Separator + tail, "");
    assert "" + p == p;
    assert (Separator + tail)[|Separator|..] == tail;
  }

  /** The split is the only way to write s as parts joined by " & " in which
      no part contains the separator and no part but the last ends in " &". */
  lemma {:induction false} SplitUnique(s: string, parts: seq<string>)
    requires |parts| >= 1 && Join(parts) == s
    requires forall k :: 0 <= k < |parts| ==> !ContainsSep(parts[k])
    requires CutsLeftmost(parts)
    ensures Split(s) == parts
    decreases |parts|
  {
    if |parts| == 1 {
      assert s == parts[0] + "";
      SplitFromScan(parts[0], "", "");
      assert "" + parts[0] == parts[0];
    } else {
      var tail := parts[1..];
      assert s == parts[0] + Separator + Join(tail);
      SplitFromFirstPart(parts[0], Join(tail));
      SplitUnique(Join(tail), tail);
      assert [parts[0]] + tail == parts;
    }
  }

  /** Names without '&' survive a join followed by a split unchanged. */
  lemma {:induction false} SplitJoin(names: seq<string>)
    requires |names| >= 1
    requires forall n :: n in names ==> '&' !in n
    ensures Split(Join(names)) == names
    decreases |names|
  {
    if |names| == 1 {
      SplitFromPlain(names[0], "");
      assert "" + names[0] == names[0];
    } else {
      SplitFromPlainThenSep(names[0], "", Join(names[1..]));
      SplitJoin(names[1..]);
      assert "" + names[0] == names[0];
      assert [names[0]] + names[1..] == names;
    }
  }

  // ---------------------------------------------------------------------------
  // Lookup and sum

  /** risk_scores.get(name, 0). */
  function Weight(name: string): (w: nat)
    ensures w <= MaxWeight
    ensures name !in RiskScores ==> w == 0
  {
    if name in RiskScores then RiskScores[name] else 0
  }

  /** The sum of the weights of the stripped parts. */
  function SumWeights(parts: seq<string>): (total: nat)
    ensures total <= MaxWeight * |parts|
  {
    if |parts| == 0 then 0 else Weight(Strip(parts[0])) + SumWeights(parts[1..])
  }

  lemma {:induction false} SumWeightsAppend(a: seq<string>, b: seq<string>)
    ensures SumWeights(a + b) == SumWeights(a) + SumWeights(b)
    decreases |a|
  {
    if |a| == 0 {
      assert a + b == b;
    } else {
      assert (a + b)[1..] == a[1..] + b;
      SumWeightsAppend(a[1..], b);
    }
  }

  /** The total weight of a medical history, before normalisation. */
  function TotalRisk(history: string): (total: nat)
    ensures total <= MaxWeight * |Split(Lower(history))|
  {
    SumWeights(Split(Lower(history)))
  }

  /** calculate_normalized_risk: the total scaled by the fixed range 0..14. */
  function NormalizedRisk(history: string): (score: real)
    ensures score >= 0.0
    ensures score * 14.0 == TotalRisk(history) as real
  {
    var range: real := (MaxScore - MinScore) as real;
    assert range == 14.0;
    (TotalRisk(history) - MinScore) as real / range
  }

  function LowerAll(names: seq<string>): (r: seq<string>)
    ensures |r| == |names|
    ensures forall i :: 0 <= i < |names| ==> r[i] == Lower(names[i])
  {
    if |names| == 0 then [] else [Lower(names[0])] + LowerAll(names[1..])
  }

  lemma LowerKeepsAmpersandOut(s: string)
    requires '&' !in s
    ensures '&' !in Lower(s)
  {
    forall k | 0 <= k < |s| ensures Lower(s)[k] != '&' {
      assert Lower(s)[k] == LowerChar(s[k]);
    }
  }

  lemma {:induction false} LowerJoin(names: seq<string>)
    ensures Lower(Join(names)) == Join(LowerAll(names))
    decreases |names|
  {
    if |names| >= 2 {
      LowerJoin(names[1..]);
      LowerAppend(names[0] + Separator, Join(names[1..]));
      LowerAppend(names[0], Separator);
      assert Lower(Separator) == Separator;
      assert LowerAll(names)[1..] == LowerAll(names[1..]);
    }
  }

  /** The total of a history written as conditions joined by " & " is the sum of
      the weights of the conditions, each matched without regard to ASCII case
      or surrounding whitespace. */
  lemma TotalRiskOfConditions(names: seq<string>)
    requires |names| >= 1
    requires forall n :: n in names ==> '&' !in n
    ensures TotalRisk(Join(names)) == SumWeights(LowerAll(names))
  {
    LowerJoin(names);
    var lowered := LowerAll(names);
    forall i | 0 <= i < |lowered| ensures '&' !in lowered[i] {
      LowerKeepsAmpersandOut(names[i]);
    }
    SplitJoin(lowered);
  }

  /** One known condition, in any ASCII case and with any surrounding
      whitespace, scores its table weight. */
  lemma SingleCondition(a: string, spelled: string, b: string)
    requires Lower(spelled) in RiskScores
    requires AllSpace(a) && AllSpace(b)
    ensures TotalRisk(a + spelled + b) == RiskScores[Lower(spelled)]
  {
    var name := Lower(spelled);
    KnownNameIsCanonical(name);
    LowerAppend(a + spelled, b);
    LowerAppend(a, spelled);
    LowerOfLowercase(a);
    LowerOfLowercase(b);
    var s := a + name + b;
    assert Lower(a + spelled + b) == s;
    assert '&' !in s by {
      KnownNameHasNoAmpersand(name);
      assert !IsSpace('&');
    }
    SplitFromPlain(s, "");
    assert "" + s == s;
    StripUnique(a, name, b);
    assert SumWeights([s]) == Weight(Strip(s)) + SumWeights([]);
  }

  lemma LowerOfLowercase(s: string)
    requires forall i :: 0 <= i < |s| ==> !IsUpper(s[i])
    ensures Lower(s) == s
  {
  }

  /** A lower-case name with no surrounding whitespace is its own canonical form. */
  lemma CanonicalName(name: string)
    requires forall i :: 0 <= i < |name| ==> !IsUpper(name[i])
    requires Trimmed(name)
    ensures Lower(name) == name && Strip(name) == name
  {
    LowerOfLowercase(name);
    assert "" + name + "" == name;
    StripUnique("", name, "");
  }

  /** Every name in the weight table is already lower-case and stripped. */
  lemma KnownNameIsCanonical(name: string)
    requires name in RiskScores
    ensures Lower(name) == name && Strip(name) == name
  {
    if name == "diabetes" {
      CanonicalName("diabetes");
    } else if name == "heart disease" {
      CanonicalName("heart disease");
    } else if name == "high blood pressure" {
      CanonicalName("high blood pressure");
    } else if name == "thyroid" {
      CanonicalName("thyroid");
    } else if name == "no disease" {
      CanonicalName("no disease");
    } else {
      assert name == "none";
      CanonicalName("none");
    }
  }

  lemma KnownNameHasNoAmpersand(name: string)
    requires name in RiskScores
    ensures '&' !in name
  {
    assert name in {"diabetes", "heart disease", "high blood pressure", "thyroid", "no disease", "none"};
  }

  /** The table weights of a list of known condition names, added up. */
  function TableSum(names: seq<string>): nat
    requires forall n :: n in names ==> n in RiskScores
  {
    if |names| == 0 then 0 else RiskScores[names[0]] + TableSum(names[1..])
  }

  lemma {:induction false} SumWeightsOfKnown(names: seq<string>)
    requires forall n :: n in names ==> n in RiskScores
    ensures SumWeights(LowerAll(names)) == TableSum(names)
    decreases |names|
  {
    if |names| > 0 {
      KnownNameIsCanonical(names[0]);
      assert LowerAll(names)[1..] == LowerAll(names[1..]);
      SumWeightsOfKnown(names[1..]);
    }
  }

  /** Known conditions joined by " & " score the sum of their weights. */
  lemma KnownConditionsTotal(names: seq<string>)
    requires |names| >= 1
    requires forall n :: n in names ==> n in RiskScores
    ensures TotalRisk(Join(names)) == TableSum(names)
  {
    forall n | n in names ensures '&' !in n {
      KnownNameHasNoAmpersand(n);
    }
    TotalRiskOfConditions(names);
    SumWeightsOfKnown(names);
  }

  lemma ThreeConditionsScore()
    ensures TotalRisk(Join(["diabetes", "heart disease", "thyroid"])) == 19
  {
    var names := ["diabetes", "heart disease", "thyroid"];
    KnownConditionsTotal(names);
    assert TableSum(names) == 6 + TableSum(names[1..]);
    assert TableSum(names[1..]) == 8 + TableSum(names[2..]);
  }

  /** The score is not clamped to 1: three conditions together exceed it. */
  lemma ScoreNotClamped()
    ensures TotalRisk("diabetes & heart disease & thyroid") == 19
    ensures NormalizedRisk("diabetes & heart disease & thyroid") > 1.0
  {
    var names := ["diabetes", "heart disease", "thyroid"];
    assert Join(names[1..]) == "heart disease" + Separator + "thyroid";
    assert Join(names) == "diabetes & heart disease & thyroid";
    ThreeConditionsScore();
  }

  /** The default history used when none is given scores 0. */
  lemma DefaultHistoryScoresZero()
    ensures NormalizedRisk("no disease") == 0.0
  {
    DefaultHistoryIsOnePart();
    KnownNameIsCanonical("no disease");
    assert SumWeights(["no disease"]) == Weight(Strip("no disease")) + SumWeights([]);
  }

  lemma DefaultHistoryIsOnePart()
    ensures Split(Lower("no disease")) == ["no disease"]
  {
    KnownNameIsCanonical("no disease");
    SplitFromPlain("no disease", "");
    assert "" + "no disease" == "no disease";
  }
}
