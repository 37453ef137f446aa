/** CVSS v3.1 base vectors: serialising eight metric values into the
    canonical `CVSS:3.1/AV:x/AC:x/PR:x/UI:x/S:x/C:x/I:x/A:x` string,
    parsing such a string back into values, and merging a patch of
    replacement values (with "X" meaning "keep") into a value list. */
module CvssUtils {
  import opened Strings

  /** The only exception the toolkit can raise: a list or field index
      out of range. */
  datatype Error = IndexError

  datatype Result<T> = Ok(value: T) | Failure(error: Error)

  const Version: string := "3.1"
  const Base: string := "CVSS:"
  const Separator: char := '/'
  const Preamble: string := Base + Version + [Separator]

  /** The eight base-metric codes in canonical order. */
  const Codes: seq<string> := ["AV", "AC", "PR", "UI", "S", "C", "I", "A"]

  /** A metric value that survives a trip through the vector string. */
  predicate Plain(v: string) {
    Separator !in v && ':' !in v
  }

  predicate AllPlain(vs: seq<string>) {
    forall k :: 0 <= k < |vs| ==> Plain(vs[k])
  }

  // ---------------------------------------------------------------------
  // Serialising

  /** One `name:value` pair, followed by the separator unless it is the last. */
  function Parameter(name: string, value: string, end: bool): string
  {
    if end then name + ":" + value
    else name + ":" + value + [Separator]
  }

  /** The reference layout of a vector string: the version field and then
      one `CODE:value` field per metric, in canonical order. */
  function Layout(values: seq<string>): (r: seq<string>)
    requires |values| == 8
    ensures |r| == 9 && r[0] == Base + Version
    ensures forall k :: 1 <= k < 9 ==> r[k] == Codes[k - 1] + ":" + values[k - 1]
  {
    [Base + Version] + seq(8, k requires 0 <= k < 8 => Codes[k] + ":" + values[k])
  }

  /** The vector string for the eight mandatory values. */
  function VectorString(av: string, ac: string, pr: string, ui: string,
                        s: string, c: string, i: string, a: string): (r: string)
    ensures Preamble <= r
  {
    Preamble +
      Parameter("AV", av, false) +
      Parameter("AC", ac, false) +
      Parameter("PR", pr, false) +
      Parameter("UI", ui, false) +
      Parameter("S", s, false) +
      Parameter("C", c, false) +
      Parameter("I", i, false) +
      Parameter("A", a, true)
  }

  /** The version field and the first `k` metric fields of the layout,
      joined by the separator. */
  function Fields(v: seq<string>, k: nat): string
    requires |v| == 8 && k <= 8
  {
    if k == 0 then Base + Version else Fields(v, k - 1) + [Separator] + Layout(v)[k]
  }

  /** No layout field of separator-free values holds a separator. */
  lemma LayoutPlain(v: seq<string>)
    requires |v| == 8 && AllPlain(v)
    ensures forall k :: 0 <= k < 9 ==> Separator !in Layout(v)[k]
  {
    var L := Layout(v);
    VersionPlain();
    forall k | 1 <= k < 9 ensures Separator !in L[k] {
      assert L[k] == Codes[k - 1] + [':'] + v[k - 1];
      // One empty branch per position: in each, `k` is a literal, so
      // `Codes[k - 1]` becomes a concrete two-letter code the verifier can
      // inspect character by character.
      if k == 1 {} else if k == 2 {} else if k == 3 {} else if k == 4 {}
      else if k == 5 {} else if k == 6 {} else if k == 7 {} else {}
    }
  }

  /** The version field alone splits into itself. */
  lemma SplitVersion(v: seq<string>)
    requires |v| == 8
    ensures Split(Fields(v, 0), Separator) == Layout(v)[..1]
  {
    var f := Fields(v, 0);
    assert f == Base + Version == Layout(v)[0];
    assert Separator !in f by { VersionPlain(); }
    assert Layout(v)[..1] == [f];
  }

  /** The version field holds no separator. */
  lemma VersionPlain()
    ensures Separator !in Base + Version
  {
  }

  /** The joined fields split back into the first `k + 1` layout fields. */
  lemma {:induction false} SplitFields(v: seq<string>, k: nat)
    requires |v| == 8 && AllPlain(v) && k <= 8
    ensures Split(Fields(v, k), Separator) == Layout(v)[..k + 1]
  {
    if k == 0 {
      SplitVersion(v);
    } else {
      var L := Layout(v);
      var f := Fields(v, k - 1);
      assert Separator !in L[k] by { LayoutPlain(v); }
      assert Split(f, Separator) == L[..k] by { SplitFields(v, k - 1); }
      SplitSnoc(f, Separator, L[k]);
      assert Fields(v, k) == f + [Separator] + L[k];
      TakeOneMore(L, k);
    }
  }

  /** The preamble followed by the first `k` parameters, as `CVSS_string`
      writes them. */
  function Written(v: seq<string>, k: nat): string
    requires |v| == 8 && k <= 8
  {
    if k == 0 then Preamble else Written(v, k - 1) + Parameter(Codes[k - 1], v[k - 1], k == 8)
  }

  /** The first four parameters written after the preamble. */
  lemma FirstWritten(v: seq<string>)
    requires |v| == 8
    ensures Written(v, 4) == Preamble + Parameter("AV", v[0], false) + Parameter("AC", v[1], false)
                               + Parameter("PR", v[2], false) + Parameter("UI", v[3], false)
  {
    assert Written(v, 1) == Preamble + Parameter("AV", v[0], false);
    assert Written(v, 2) == Written(v, 1) + Parameter("AC", v[1], false);
    assert Written(v, 3) == Written(v, 2) + Parameter("PR", v[2], false);
    assert Written(v, 4) == Written(v, 3) + Parameter("UI", v[3], false);
  }

  /** The vector string is all eight parameters written after the preamble. */
  lemma VectorStringWritten(v: seq<string>)
    requires |v| == 8
    ensures VectorString(v[0], v[1], v[2], v[3], v[4], v[5], v[6], v[7]) == Written(v, 8)
  {
    FirstWritten(v);
    assert Written(v, 5) == Written(v, 4) + Parameter("S", v[4], false);
    assert Written(v, 6) == Written(v, 5) + Parameter("C", v[5], false);
    assert Written(v, 7) == Written(v, 6) + Parameter("I", v[6], false);
    assert Written(v, 8) == Written(v, 7) + Parameter("A", v[7], true);
  }

  /** What is written after `k` parameters is the first `k + 1` layout
      fields joined by the separator, followed by one more separator until
      the last parameter. */
  lemma {:induction false} WrittenFields(v: seq<string>, k: nat)
    requires |v| == 8 && k <= 8
    ensures k < 8 ==> Written(v, k) == Fields(v, k) + [Separator]
    ensures k == 8 ==> Written(v, k) == Fields(v, k)
  {
    if k > 0 {
      var f, field := Fields(v, k - 1), Layout(v)[k];
      var p := Parameter(Codes[k - 1], v[k - 1], k == 8);
      assert p == if k == 8 then field else field + [Separator];
      assert Written(v, k - 1) == f + [Separator] by { WrittenFields(v, k - 1); }
      AppendField(f, field, p, k == 8);
      assert Written(v, k) == Written(v, k - 1) + p;
      assert Fields(v, k) == f + [Separator] + field;
    }
  }

  /** Appending one written parameter to the fields written so far. */
  lemma AppendField(f: string, field: string, p: string, end: bool)
    requires p == if end then field else field + [Separator]
    ensures end ==> (f + [Separator]) + p == f + [Separator] + field
    ensures !end ==> (f + [Separator]) + p == (f + [Separator] + field) + [Separator]
  {
  }

  /** The vector string splits at '/' into the version field and the eight
      `CODE:value` fields, in canonical order. */
  lemma SplitVectorString(v: seq<string>)
    requires |v| == 8 && AllPlain(v)
    ensures Split(VectorString(v[0], v[1], v[2], v[3], v[4], v[5], v[6], v[7]), Separator) == Layout(v)
  {
    VectorStringWritten(v);
    WrittenFields(v, 8);
    SplitFields(v, 8);
    assert Layout(v)[..9] == Layout(v);
  }

  /** The vector string is the version field and the eight `CODE:value`
      fields, in canonical order, joined by the separator. */
  lemma VectorStringLayout(v: seq<string>)
    requires |v| == 8
    ensures VectorString(v[0], v[1], v[2], v[3], v[4], v[5], v[6], v[7]) == Join(Layout(v), Separator)
  {
    VectorStringWritten(v);
    WrittenFields(v, 8);
    FieldsJoin(v, 8);
    assert Layout(v)[..9] == Layout(v);
  }

  /** The first `k + 1` layout fields, built one by one, are their join. */
  lemma {:induction false} FieldsJoin(v: seq<string>, k: nat)
    requires |v| == 8 && k <= 8
    ensures Fields(v, k) == Join(Layout(v)[..k + 1], Separator)
  {
    var L := Layout(v);
    if k == 0 {
      assert L[..1] == [L[0]];
    } else {
      FieldsJoin(v, k - 1);
      assert L[..k + 1] == L[..k] + [L[k]];
      JoinSnoc(L[..k], L[k], Separator);
    }
  }

  /** The vector string for a list of values in the order AV, AC, PR, UI,
      S, C, I, A; a list shorter than eight raises. */
  function VectorList(params: seq<string>): (r: Result<string>)
    ensures r.Ok? <==> |params| >= 8
    ensures r.Ok? ==> r.value == VectorString(params[0], params[1], params[2], params[3],
                                              params[4], params[5], params[6], params[7])
  {
    if |params| < 8 then Failure(IndexError)
    else
      Ok(Preamble +
         Parameter("AV", params[0], false) +
         Parameter("AC", params[1], false) +
         Parameter("PR", params[2], false) +
         Parameter("UI", params[3], false) +
         Parameter("S", params[4], false) +
         Parameter("C", params[5], false) +
         Parameter("I", params[6], false) +
         Parameter("A", params[7], true))
  }

  // ---------------------------------------------------------------------
  // Parsing

  predicate EverySegmentHasColon(segs: seq<string>) {
    forall k :: 0 <= k < |segs| ==> ':' in segs[k]
  }

  /** `p.split(":")[1]` of every segment, in order. */
  function SecondFields(segs: seq<string>): (r: seq<string>)
    requires EverySegmentHasColon(segs)
    ensures |r| == |segs|
    ensures forall k :: 0 <= k < |segs| ==> r[k] == Split(segs[k], ':')[1]
    decreases |segs|
  {
    if segs == [] then []
    else SecondFields(segs[..|segs| - 1]) + [Split(segs[|segs| - 1], ':')[1]]
  }

  /** The values of a vector string: the second `:`-field of every
      `/`-segment, with the first (version) segment dropped.  A segment
      without `:` raises; the number of segments is not checked. */
  function Values(vector: string): (r: Result<seq<string>>)
    ensures r.Ok? <==> EverySegmentHasColon(Split(vector, Separator))
    ensures r.Ok? ==> |r.value| == |Split(vector, Separator)| - 1
    ensures r.Ok? ==> forall k :: 0 <= k < |r.value| ==>
                        r.value[k] == Split(Split(vector, Separator)[k + 1], ':')[1]
  {
    var segs := Split(vector, Separator);
    if EverySegmentHasColon(segs) then Ok(SecondFields(segs)[1..])
    else Failure(IndexError)
  }

  /** The loop that parses a vector string, proved to compute `Values`. */
  method CvssValues(vector: string) returns (r: Result<seq<string>>)
    ensures r == Values(vector)
  {
    var paramStr: seq<string> := [];
    var params := Split(vector, Separator);
    for n := 0 to |params|
      invariant EverySegmentHasColon(params[..n])
      invariant paramStr == SecondFields(params[..n])
    {
      var s := Split(params[n], ':');
      if |s| < 2 {
        assert ':' !in params[n];
        return Failure(IndexError);
      }
      SecondFieldsNext(params, n);
      paramStr := paramStr + [s[1]];
    }
    assert params[..|params|] == params;
    return Ok(paramStr[1..]);
  }

  /** One more segment with a `:` extends the second fields by its own. */
  lemma SecondFieldsNext(segs: seq<string>, n: nat)
    requires n < |segs| && EverySegmentHasColon(segs[..n]) && ':' in segs[n]
    ensures EverySegmentHasColon(segs[..n + 1])
    ensures SecondFields(segs[..n + 1]) == SecondFields(segs[..n]) + [Split(segs[n], ':')[1]]
  {
    var next := segs[..n + 1];
    assert next[..n] == segs[..n] && next[n] == segs[n];
  }

  /** Parsing the vector string of separator-free values gives them back. */
  lemma ValuesOfVectorString(v: seq<string>)
    requires |v| == 8 && AllPlain(v)
    ensures Values(VectorString(v[0], v[1], v[2], v[3], v[4], v[5], v[6], v[7])) == Ok(v)
  {
    SplitVectorString(v);
    ValuesOfLayout(VectorString(v[0], v[1], v[2], v[3], v[4], v[5], v[6], v[7]), v);
  }

  /** A string that splits into the layout of `v` has the values `v`. */
  lemma ValuesOfLayout(s: string, v: seq<string>)
    requires |v| == 8 && AllPlain(v) && Split(s, Separator) == Layout(v)
    ensures Values(s) == Ok(v)
  {
    var L := Layout(v);
    LayoutFields(v);
    assert EverySegmentHasColon(L);
    var fields := SecondFields(L);
    assert forall k :: 0 <= k < 8 ==> fields[1..][k] == v[k];
    assert fields[1..] == v;
  }

  /** Every field of the layout is separator-free, holds a `:`, and has the
      metric value as its second `:`-field. */
  lemma LayoutFields(v: seq<string>)
    requires |v| == 8 && AllPlain(v)
    ensures forall k :: 0 <= k < 9 ==> Separator !in Layout(v)[k] && ':' in Layout(v)[k]
    ensures forall k :: 0 <= k < 8 ==> Split(Layout(v)[k + 1], ':')[1] == v[k]
  {
    var L := Layout(v);
    assert L[0] == "CVSS" + [':'] + "3.1";
    SplitPair("CVSS", ':', "3.1");
    forall k | 0 <= k < 8
      ensures Separator !in L[k + 1] && ':' in L[k + 1] && Split(L[k + 1], ':')[1] == v[k]
    {
      assert L[k + 1] == Codes[k] + [':'] + v[k];
      LayoutPlain(v);
      assert Separator !in L[k + 1];
      SplitPair(Codes[k], ':', v[k]);
    }
  }

  /** Round trip from values: `CVSS_values(CVSS_list(v)) == v`. */
  lemma ValuesOfVectorList(v: seq<string>)
    requires |v| == 8 && AllPlain(v)
    ensures VectorList(v).Ok? && Values(VectorList(v).value) == Ok(v)
  {
    ValuesOfVectorString(v);
  }

  /** Round trip from strings: `CVSS_list(CVSS_values(s)) == s` for every
      string `s` that `CVSS_list` produces from separator-free values. */
  lemma VectorListOfValues(v: seq<string>, s: string)
    requires |v| == 8 && AllPlain(v) && VectorList(v) == Ok(s)
    ensures Values(s).Ok? && VectorList(Values(s).value) == Ok(s)
  {
    ValuesOfVectorList(v);
  }

  /** Distinct separator-free value lists give distinct vector strings. */
  lemma VectorStringInjective(v: seq<string>, w: seq<string>)
    requires |v| == 8 && AllPlain(v) && |w| == 8 && AllPlain(w)
    requires VectorString(v[0], v[1], v[2], v[3], v[4], v[5], v[6], v[7])
          == VectorString(w[0], w[1], w[2], w[3], w[4], w[5], w[6], w[7])
    ensures v == w
  {
    ValuesOfVectorString(v);
    ValuesOfVectorString(w);
  }

  // ---------------------------------------------------------------------
  // Merging a patch

  /** Position-wise merge: a patch entry other than "X" replaces the
      original value, "X" keeps it.  An "X" beyond the end of the original
      raises. */
  function ModifyVector(original: seq<string>, patch: seq<string>): (r: Result<seq<string>>)
    ensures r.Ok? <==> forall k :: 0 <= k < |patch| && patch[k] == "X" ==> k < |original|
    ensures r.Ok? ==> |r.value| == |patch|
    ensures r.Ok? ==> forall k :: 0 <= k < |patch| ==>
                        r.value[k] == if patch[k] != "X" then patch[k] else original[k]
    decreases |patch|
  {
    if patch == [] then Ok([])
    else
      var n := |patch| - 1;
      match ModifyVector(original, patch[..n])
      case Failure(e) => Failure(e)
      case Ok(v) =>
        if patch[n] != "X" then Ok(v + [patch[n]])
        else if n < |original| then Ok(v + [original[n]])
        else Failure(IndexError)
  }

  /** The loop that merges a patch, with its explicit index counter, proved
      to compute `ModifyVector`. */
  method CvssModifyVector(original: seq<string>, patch: seq<string>) returns (r: Result<seq<string>>)
    ensures r == ModifyVector(original, patch)
  {
    var vector: seq<string> := [];
    var index := 0;
    while index < |patch|
      invariant 0 <= index <= |patch|
      invariant ModifyVector(original, patch[..index]) == Ok(vector)
    {
      var m := patch[index];
      assert patch[..index + 1][..index] == patch[..index];
      if m != "X" {
        vector := vector + [m];
      } else {
        if index >= |original| {
          return Failure(IndexError);
        }
        vector := vector + [original[index]];
      }
      index := index + 1;
    }
    assert patch[..index] == patch;
    return Ok(vector);
  }

  /** A patch made only of "X" keeps every value. */
  lemma ModifyVectorAllKeep(original: seq<string>, patch: seq<string>)
    requires |patch| <= |original|
    requires forall k :: 0 <= k < |patch| ==> patch[k] == "X"
    ensures ModifyVector(original, patch) == Ok(original[..|patch|])
  {
    var r := ModifyVector(original, patch);
    assert r.Ok?;
    assert r.value == original[..|patch|];
  }

  /** A patch without "X" is returned as it is. */
  lemma ModifyVectorNoKeep(original: seq<string>, patch: seq<string>)
    requires forall k :: 0 <= k < |patch| ==> patch[k] != "X"
    ensures ModifyVector(original, patch) == Ok(patch)
  {
    var r := ModifyVector(original, patch);
    assert r.Ok?;
    assert r.value == patch;
  }

  /** Patch a vector string: parse it, merge, and serialise again. */
  function Modify(vector: string, patch: seq<string>): (r: Result<string>)
  {
    match Values(vector)
    case Failure(e) => Failure(e)
    case Ok(values) =>
      match ModifyVector(values, patch)
      case Failure(e) => Failure(e)
      case Ok(merged) => VectorList(merged)
  }

  /** Patching a canonical vector string with an eight-entry patch yields
      the canonical string of the merged values. */
  lemma ModifyCanonical(v: seq<string>, patch: seq<string>)
    requires |v| == 8 && AllPlain(v) && |patch| == 8
    ensures ModifyVector(v, patch).Ok?
    ensures Modify(VectorList(v).value, patch) == VectorList(ModifyVector(v, patch).value)
  {
    ValuesOfVectorList(v);
  }

  /** An all-"X" patch of length eight leaves a canonical vector unchanged. */
  lemma ModifyAllKeep(v: seq<string>)
    requires |v| == 8 && AllPlain(v)
    ensures Modify(VectorList(v).value, ["X", "X", "X", "X", "X", "X", "X", "X"]) == VectorList(v)
  {
    var keep := ["X", "X", "X", "X", "X", "X", "X", "X"];
    ModifyVectorAllKeep(v, keep);
    assert v[..|keep|] == v;
    ValuesOfVectorList(v);
    assert Modify(VectorList(v).value, keep) == VectorList(v);
  }

  /** A patch without "X" replaces every value of any parseable vector. */
  lemma ModifyNoKeep(vector: string, patch: seq<string>)
    requires Values(vector).Ok?
    requires forall k :: 0 <= k < |patch| ==> patch[k] != "X"
    ensures Modify(vector, patch) == VectorList(patch)
  {
    ModifyVectorNoKeep(Values(vector).value, patch);
  }

  // ---------------------------------------------------------------------
  // Building a patch from modified-metric pairs

  /** The modified-metric codes and the vector position each one patches. */
  const ModParameters: map<string, nat> :=
    map["MAV" := 0, "MAC" := 1, "MPR" := 2, "MUI" := 3, "MS" := 4, "MC" := 5, "MI" := 6, "MA" := 7]

  /** The patch that changes nothing. */
  const AllKeep: seq<string> := ["X", "X", "X", "X", "X", "X", "X", "X"]

  /** The code of a `MCODE:value` segment: its first `:`-field. */
  function Code(seg: string): string {
    Split(seg, ':')[0]
  }

  /** Segment `seg` sets position `k` of the patch. */
  predicate Names(seg: string, k: int) {
    Code(seg) in ModParameters && ModParameters[Code(seg)] == k
  }

  lemma ModParametersFacts()
    ensures forall c :: c in ModParameters ==> ModParameters[c] < 8 && ':' !in c
    ensures forall c, d :: c in ModParameters && d in ModParameters && ModParameters[c] == ModParameters[d] ==> c == d
  {
  }

  /** One iteration of the patch-building loop. */
  function Step(acc: seq<string>, seg: string): (r: Result<seq<string>>)
    requires |acc| == 8
    ensures r.Ok? ==> |r.value| == 8
  {
    ModParametersFacts();
    var s := Split(seg, ':');
    if s[0] in ModParameters then
      if |s| >= 2 then Ok(acc[ModParameters[s[0]] := s[1]]) else Failure(IndexError)
    else Ok(acc)
  }

  /** One iteration after the earlier ones; an exception stops the loop. */
  function Then(r: Result<seq<string>>, seg: string): (r': Result<seq<string>>)
    requires r.Ok? ==> |r.value| == 8
    ensures r'.Ok? ==> r.Ok? && |r'.value| == 8
  {
    match r
    case Failure(e) => Failure(e)
    case Ok(acc) => Step(acc, seg)
  }

  /** The patch after processing the segments in order. */
  function Patch(segs: seq<string>): (r: Result<seq<string>>)
    ensures r.Ok? ==> |r.value| == 8
    decreases |segs|
  {
    if segs == [] then Ok(AllKeep)
    else Then(Patch(segs[..|segs| - 1]), segs[|segs| - 1])
  }

  /** The patch described by a `MAV:L/MC:H`-style string. */
  function BaseMetrics(modString: string): (r: Result<seq<string>>)
    ensures r.Ok? ==> |r.value| == 8
  {
    Patch(Split(modString, Separator))
  }

  /** The loop that fills the eight-entry patch in place, proved to compute
      `BaseMetrics`. */
  method CvssModifyBaseMetrics(modString: string) returns (r: Result<seq<string>>)
    ensures r == BaseMetrics(modString)
  {
    ModParametersFacts();
    var modDefault := new string[8](_ => "X");
    assert modDefault[..] == AllKeep;
    var params := Split(modString, Separator);
    for n := 0 to |params|
      invariant Patch(params[..n]) == Ok(modDefault[..])
    {
      var s := Split(params[n], ':');
      assert params[..n + 1][..n] == params[..n];
      if s[0] in ModParameters {
        if |s| < 2 {
          assert params[n] in ModParameters;
          PatchOk(params);
          return Failure(IndexError);
        }
        modDefault[ModParameters[s[0]]] := s[1];
      }
    }
    assert params[..|params|] == params;
    return Ok(modDefault[..]);
  }

  /** One iteration fails exactly on a bare known code. */
  lemma StepOk(acc: seq<string>, seg: string)
    requires |acc| == 8
    ensures Step(acc, seg).Ok? <==> seg !in ModParameters
  {
    ModParametersFacts();
    if ':' !in seg {
      assert Split(seg, ':') == [seg];
    }
  }

  /** One iteration fails exactly on a bare known code; otherwise it sets
      the position its segment names and keeps every other one. */
  lemma StepMeaning(acc: seq<string>, seg: string)
    requires |acc| == 8
    ensures Step(acc, seg).Ok? <==> seg !in ModParameters
    ensures Step(acc, seg).Ok? ==> forall k :: 0 <= k < 8 ==>
              Step(acc, seg).value[k] == if Names(seg, k) then Split(seg, ':')[1] else acc[k]
  {
    StepOk(acc, seg);
    ModParametersFacts();
  }

  lemma {:induction false} PatchOk(segs: seq<string>)
    ensures Patch(segs).Ok? <==> forall j :: 0 <= j < |segs| ==> segs[j] !in ModParameters
    decreases |segs|
  {
    if segs != [] {
      var n := |segs| - 1;
      var front := segs[..n];
      PatchOk(front);
      assert forall j :: 0 <= j < n ==> front[j] == segs[j];
      assert Patch(segs) == Then(Patch(front), segs[n]);
      if Patch(front).Ok? {
        StepOk(Patch(front).value, segs[n]);
      }
    }
  }

  /** No segment sets position `k`. */
  predicate NoneNames(segs: seq<string>, k: int) {
    forall j :: 0 <= j < |segs| ==> !Names(segs[j], k)
  }

  /** Segment `j` is the last one that sets position `k`. */
  predicate LastNames(segs: seq<string>, j: int, k: int) {
    0 <= j < |segs| && Names(segs[j], k) && forall j' :: j < j' < |segs| ==> !Names(segs[j'], k)
  }

  lemma {:induction false} PatchUnnamed(segs: seq<string>, k: int)
    requires Patch(segs).Ok? && 0 <= k < 8 && NoneNames(segs, k)
    ensures Patch(segs).value[k] == "X"
    decreases |segs|
  {
    if segs != [] {
      var n := |segs| - 1;
      assert forall j :: 0 <= j < n ==> segs[..n][j] == segs[j];
      PatchUnnamed(segs[..n], k);
      StepMeaning(Patch(segs[..n]).value, segs[n]);
    }
  }

  lemma {:induction false} PatchNamed(segs: seq<string>, j: int, k: int)
    requires Patch(segs).Ok? && LastNames(segs, j, k)
    ensures ':' in segs[j] && Patch(segs).value[k] == Split(segs[j], ':')[1]
    decreases |segs|
  {
    ModParametersFacts();
    var n := |segs| - 1;
    StepMeaning(Patch(segs[..n]).value, segs[n]);
    if j < n {
      assert forall i :: 0 <= i < n ==> segs[..n][i] == segs[i];
      PatchNamed(segs[..n], j, k);
    } else {
      KnownHasValue(segs[n]);
    }
  }

  /** Every position no segment sets stays "X". */
  lemma PatchUnnamedAll(segs: seq<string>)
    requires Patch(segs).Ok?
    ensures forall k :: 0 <= k < 8 && NoneNames(segs, k) ==> Patch(segs).value[k] == "X"
  {
    forall k | 0 <= k < 8 && NoneNames(segs, k) ensures Patch(segs).value[k] == "X" {
      PatchUnnamed(segs, k);
    }
  }

  /** A segment with a known code that is not the bare code holds a `:`. */
  lemma KnownHasValue(seg: string)
    requires Code(seg) in ModParameters && seg !in ModParameters
    ensures ':' in seg
  {
    assert ':' !in seg ==> Split(seg, ':') == [seg];
  }

  /** Every position takes the value of the last segment that sets it. */
  lemma PatchNamedAll(segs: seq<string>)
    requires Patch(segs).Ok?
    ensures forall j, k :: LastNames(segs, j, k) ==>
              ':' in segs[j] && Patch(segs).value[k] == Split(segs[j], ':')[1]
  {
    forall j, k | LastNames(segs, j, k)
      ensures ':' in segs[j] && Patch(segs).value[k] == Split(segs[j], ':')[1]
    {
      PatchNamed(segs, j, k);
    }
  }

  /** What the patch means: building it fails exactly when some segment is
      a bare known code with no value; otherwise position `k` holds the
      value of the last segment naming `k`, and "X" when none does. */
  lemma PatchMeaning(segs: seq<string>)
    ensures Patch(segs).Ok? <==> forall j :: 0 <= j < |segs| ==> segs[j] !in ModParameters
    ensures Patch(segs).Ok? ==> forall k :: 0 <= k < 8 && NoneNames(segs, k) ==> Patch(segs).value[k] == "X"
    ensures Patch(segs).Ok? ==>
              forall j, k :: LastNames(segs, j, k) ==>
                ':' in segs[j] && Patch(segs).value[k] == Split(segs[j], ':')[1]
  {
    PatchOk(segs);
    if Patch(segs).Ok? {
      PatchUnnamedAll(segs);
      PatchNamedAll(segs);
    }
  }

  /** A segment whose code is not a known modified metric changes nothing. */
  lemma {:induction false} PatchIgnoresUnknown(front: seq<string>, u: string, back: seq<string>)
    requires Code(u) !in ModParameters
    ensures Patch(front + [u] + back) == Patch(front + back)
    decreases |back|
  {
    var withU, without := front + [u] + back, front + back;
    if back == [] {
      assert withU == front + [u] && withU[..|front|] == front && withU[|front|] == u;
      assert without == front;
      if Patch(front).Ok? {
        assert Step(Patch(front).value, u) == Patch(front);
      }
    } else {
      var n := |back| - 1;
      PatchIgnoresUnknown(front, u, back[..n]);
      assert withU[..|withU| - 1] == front + [u] + back[..n] && withU[|withU| - 1] == back[n];
      assert without[..|without| - 1] == front + back[..n] && without[|without| - 1] == back[n];
    }
  }

  /** Two iterations on segments with different codes commute. */
  lemma StepSwap(r: Result<seq<string>>, x: string, y: string)
    requires r.Ok? ==> |r.value| == 8
    requires Code(x) != Code(y)
    ensures Then(Then(r, x), y) == Then(Then(r, y), x)
  {
    ModParametersFacts();
    if r.Ok? {
      var acc := r.value;
      StepMeaning(acc, x);
      StepMeaning(acc, y);
      if Step(acc, x).Ok? && Step(acc, y).Ok? {
        var ax, ay := Step(acc, x).value, Step(acc, y).value;
        StepMeaning(ax, y);
        StepMeaning(ay, x);
        if Step(ax, y).Ok? {
          forall k | 0 <= k < 8 ensures Step(ax, y).value[k] == Step(ay, x).value[k] {
            assert !(Names(x, k) && Names(y, k));
          }
          assert Step(ax, y).value == Step(ay, x).value;
        }
      } else if Step(acc, x).Ok? {
        StepMeaning(Step(acc, x).value, y);
      } else if Step(acc, y).Ok? {
        StepMeaning(Step(acc, y).value, x);
      }
    }
  }

  /** Exchanging the last two segments when their codes differ. */
  lemma PatchSwapLast(front: seq<string>, x: string, y: string)
    requires Code(x) != Code(y)
    ensures Patch(front + [x, y]) == Patch(front + [y, x])
  {
    var xy, yx := front + [x, y], front + [y, x];
    assert xy[..|front| + 1] == front + [x] && xy[|front| + 1] == y;
    assert yx[..|front| + 1] == front + [y] && yx[|front| + 1] == x;
    assert (front + [x])[..|front|] == front && (front + [y])[..|front|] == front;
    StepSwap(Patch(front), x, y);
  }

  /** Two adjacent segments with different codes can be exchanged. */
  lemma {:induction false} PatchSwap(front: seq<string>, x: string, y: string, back: seq<string>)
    requires Code(x) != Code(y)
    ensures Patch(front + [x, y] + back) == Patch(front + [y, x] + back)
    decreases |back|
  {
    var xy, yx := front + [x, y] + back, front + [y, x] + back;
    if back == [] {
      assert xy == front + [x, y] && yx == front + [y, x];
      PatchSwapLast(front, x, y);
    } else {
      var n := |back| - 1;
      var xy', yx' := front + [x, y] + back[..n], front + [y, x] + back[..n];
      PatchSwap(front, x, y, back[..n]);
      assert xy == xy' + [back[n]] && yx == yx' + [back[n]];
      PatchSnoc(xy', yx', back[n]);
    }
  }

  /** Segments with equal patches stay equal when one more segment follows. */
  lemma PatchSnoc(a: seq<string>, b: seq<string>, seg: string)
    requires Patch(a) == Patch(b)
    ensures Patch(a + [seg]) == Patch(b + [seg])
  {
    assert (a + [seg])[..|a|] == a && (b + [seg])[..|b|] == b;
  }

  predicate SegmentsPlain(segs: seq<string>) {
    forall k :: 0 <= k < |segs| ==> Separator !in segs[k]
  }

  lemma SegmentsPlainConcat(a: seq<string>, b: seq<string>)
    ensures SegmentsPlain(a + b) <==> SegmentsPlain(a) && SegmentsPlain(b)
  {
    if SegmentsPlain(a) && SegmentsPlain(b) {
      forall k | 0 <= k < |a + b| ensures Separator !in (a + b)[k] {
        if k >= |a| { assert (a + b)[k] == b[k - |a|]; }
      }
    }
    if SegmentsPlain(a + b) {
      forall k | 0 <= k < |a| ensures Separator !in a[k] {
        assert (a + b)[k] == a[k];
      }
      forall k | 0 <= k < |b| ensures Separator !in b[k] {
        assert (a + b)[|a| + k] == b[k];
      }
    }
  }

  /** An overlay string with an unknown code builds the same patch as the
      string without that segment. */
  lemma BaseMetricsIgnoresUnknown(front: seq<string>, u: string, back: seq<string>)
    requires |front + back| >= 1
    requires SegmentsPlain(front) && Separator !in u && SegmentsPlain(back)
    requires Code(u) !in ModParameters
    ensures BaseMetrics(Join(front + [u] + back, Separator)) == BaseMetrics(Join(front + back, Separator))
  {
    SegmentsPlainConcat(front, [u]);
    SegmentsPlainConcat(front + [u], back);
    SegmentsPlainConcat(front, back);
    SplitJoin(front + [u] + back, Separator);
    SplitJoin(front + back, Separator);
    PatchIgnoresUnknown(front, u, back);
  }

  /** Exchanging two adjacent overlay pairs with different codes builds the
      same patch. */
  lemma BaseMetricsSwap(front: seq<string>, x: string, y: string, back: seq<string>)
    requires SegmentsPlain(front + [x, y] + back)
    requires Code(x) != Code(y)
    ensures BaseMetrics(Join(front + [x, y] + back, Separator)) == BaseMetrics(Join(front + [y, x] + back, Separator))
  {
    var xy, yx := front + [x, y] + back, front + [y, x] + back;
    assert forall k :: 0 <= k < |yx| ==>
      yx[k] == xy[if k == |front| then k + 1 else if k == |front| + 1 then k - 1 else k];
    SplitJoin(xy, Separator);
    SplitJoin(yx, Separator);
    PatchSwap(front, x, y, back);
  }

  /** The segments of the overlay `MAV:L/MC:H/MI:H/MA:H`. */
  lemma ExampleSegments()
    ensures Split("MAV:L/MC:H/MI:H/MA:H", Separator) == ["MAV:L", "MC:H", "MI:H", "MA:H"]
  {
    var segs := ["MAV:L", "MC:H", "MI:H", "MA:H"];
    assert Join(segs, Separator) == "MAV:L/MC:H/MI:H/MA:H";
    SplitJoin(segs, Separator);
  }

  /** A `MCODE:value` segment with a known code sets exactly that code's
      position, to its value. */
  lemma KnownPair(seg: string, code: string, value: string, position: int)
    requires seg == code + [':'] + value && ':' !in code && ':' !in value
    requires code in ModParameters && ModParameters[code] == position
    ensures ':' in seg && seg !in ModParameters
    ensures Split(seg, ':')[1] == value
    ensures forall k :: Names(seg, k) <==> k == position
  {
    ModParametersFacts();
    SplitPair(code, ':', value);
  }

  /** The segments of the example overlay, each as a code and a value. */
  lemma ExamplePairs(segs: seq<string>)
    requires segs == ["MAV:L", "MC:H", "MI:H", "MA:H"]
    ensures segs[0] == "MAV" + [':'] + "L" && segs[1] == "MC" + [':'] + "H"
    ensures segs[2] == "MI" + [':'] + "H" && segs[3] == "MA" + [':'] + "H"
  {
  }

  /** Every segment of the example overlay holds a value. */
  lemma ExampleKnown(segs: seq<string>)
    requires segs == ["MAV:L", "MC:H", "MI:H", "MA:H"]
    ensures forall j :: 0 <= j < 4 ==> ':' in segs[j] && segs[j] !in ModParameters
  {
    ExamplePairs(segs);
    forall j | 0 <= j < 4 ensures ':' in segs[j] && segs[j] !in ModParameters {
      if j == 0 { KnownPair(segs[0], "MAV", "L", 0); }
      else if j == 1 { KnownPair(segs[1], "MC", "H", 5); }
      else if j == 2 { KnownPair(segs[2], "MI", "H", 6); }
      else { KnownPair(segs[3], "MA", "H", 7); }
    }
  }

  /** The positions the overlay's segments name, and their values. */
  lemma ExampleNames(segs: seq<string>)
    requires segs == ["MAV:L", "MC:H", "MI:H", "MA:H"]
    ensures forall k :: Names(segs[0], k) <==> k == 0
    ensures forall k :: Names(segs[1], k) <==> k == 5
    ensures forall k :: Names(segs[2], k) <==> k == 6
    ensures forall k :: Names(segs[3], k) <==> k == 7
    ensures Split(segs[0], ':')[1] == "L" && Split(segs[1], ':')[1] == "H"
    ensures Split(segs[2], ':')[1] == "H" && Split(segs[3], ':')[1] == "H"
  {
    ExamplePairs(segs);
    KnownPair(segs[0], "MAV", "L", 0);
    KnownPair(segs[1], "MC", "H", 5);
    KnownPair(segs[2], "MI", "H", 6);
    KnownPair(segs[3], "MA", "H", 7);
  }

  /** The positions no segment of the example overlay names stay "X". */
  lemma ExampleUnnamed(segs: seq<string>, k: int)
    requires segs == ["MAV:L", "MC:H", "MI:H", "MA:H"] && 1 <= k <= 4
    ensures Patch(segs).Ok? && Patch(segs).value[k] == "X"
  {
    ExampleKnown(segs);
    ExampleNames(segs);
    PatchOk(segs);
    forall j | 0 <= j < |segs| ensures !Names(segs[j], k) {
      if j == 0 {} else if j == 1 {} else if j == 2 {} else {}
    }
    PatchUnnamed(segs, k);
  }

  /** The position each segment of the example overlay names takes its value. */
  lemma ExampleNamed(segs: seq<string>, j: int, k: int)
    requires segs == ["MAV:L", "MC:H", "MI:H", "MA:H"]
    requires (j == 0 && k == 0) || (j == 1 && k == 5) || (j == 2 && k == 6) || (j == 3 && k == 7)
    ensures Patch(segs).Ok? && Patch(segs).value[k] == (if j == 0 then "L" else "H")
  {
    ExampleKnown(segs);
    ExampleNames(segs);
    PatchOk(segs);
    forall j' | j < j' < |segs| ensures !Names(segs[j'], k) {
      if j' == 1 {} else if j' == 2 {} else {}
    }
    PatchNamed(segs, j, k);
  }

  /** The segments `MAV:L`, `MC:H`, `MI:H`, `MA:H` build the patch
      `L,X,X,X,X,H,H,H`. */
  lemma PatchExample(segs: seq<string>)
    requires segs == ["MAV:L", "MC:H", "MI:H", "MA:H"]
    ensures Patch(segs) == Ok(["L", "X", "X", "X", "X", "H", "H", "H"])
  {
    ExampleNamed(segs, 0, 0);
    ExampleNamed(segs, 1, 5);
    ExampleNamed(segs, 2, 6);
    ExampleNamed(segs, 3, 7);
    var r := Patch(segs).value;
    ExampleUnnamed(segs, 1);
    ExampleUnnamed(segs, 2);
    ExampleUnnamed(segs, 3);
    ExampleUnnamed(segs, 4);
    assert r == [r[0], r[1], r[2], r[3], r[4], r[5], r[6], r[7]];
  }

  /** The overlay `MAV:L/MC:H/MI:H/MA:H` is the patch `L,X,X,X,X,H,H,H`. */
  lemma BaseMetricsExample(overlay: string)
    requires overlay == "MAV:L/MC:H/MI:H/MA:H"
    ensures BaseMetrics(overlay) == Ok(["L", "X", "X", "X", "X", "H", "H", "H"])
  {
    ExampleSegments();
    PatchExample(Split(overlay, Separator));
  }

  // The examples below take their lists as parameters pinned element by
  // element by these predicates, rather than as list literals: a function
  // applied to a literal list is evaluated eagerly by the verifier, which
  // makes a proof about `Modify` or `Values` of a literal very expensive.

  /** The values of the example vector, `N,L,N,N,C,L,L,L`. */
  predicate ExampleVector(v: seq<string>) {
    |v| == 8 && v[0] == "N" && v[1] == "L" && v[2] == "N" && v[3] == "N"
    && v[4] == "C" && v[5] == "L" && v[6] == "L" && v[7] == "L"
  }

  /** The example patch, `L,X,X,X,X,H,H,H`. */
  predicate ExamplePatch(patch: seq<string>) {
    |patch| == 8 && patch[0] == "L" && patch[1] == "X" && patch[2] == "X" && patch[3] == "X"
    && patch[4] == "X" && patch[5] == "H" && patch[6] == "H" && patch[7] == "H"
  }

  /** The expected result, `L,L,N,N,C,H,H,H`. */
  predicate ExampleResult(w: seq<string>) {
    |w| == 8 && w[0] == "L" && w[1] == "L" && w[2] == "N" && w[3] == "N"
    && w[4] == "C" && w[5] == "H" && w[6] == "H" && w[7] == "H"
  }

  /** Merging the example patch into the example values. */
  lemma ExampleMerge(v: seq<string>, patch: seq<string>, w: seq<string>)
    requires ExampleVector(v) && ExamplePatch(patch) && ExampleResult(w)
    ensures AllPlain(v)
    ensures ModifyVector(v, patch) == Ok(w)
  {
    forall k | 0 <= k < 8 ensures Plain(v[k]) {
      // One empty branch per position makes `k` a literal, so that the
      // element `ExampleVector` fixes at that position is in scope.
      if k == 0 {} else if k == 1 {} else if k == 2 {} else if k == 3 {}
      else if k == 4 {} else if k == 5 {} else if k == 6 {} else {}
    }
    var m := ModifyVector(v, patch).value;
    assert forall k | 0 <= k < 8 :: m[k] == w[k];
    assert m == w;
  }

  /** Patching the vector of `N,L,N,N,C,L,L,L` with `L,X,X,X,X,H,H,H` sets
      AV to L and C, I, A to H and keeps AC, PR, UI and S. */
  lemma ModifyExample(v: seq<string>, patch: seq<string>, w: seq<string>)
    requires ExampleVector(v) && ExamplePatch(patch) && ExampleResult(w)
    ensures VectorList(v).Ok? && Modify(VectorList(v).value, patch) == VectorList(w)
  {
    ExampleMerge(v, patch, w);
    ModifyCanonical(v, patch);
  }
}
