/** The exhaustive enumeration of CVSS v3.1 base vectors: eight nested
    loops over the metric alphabets, one vector per combination, each
    optionally patched.  Where the source prints a line and scores, the
    model collects a row. */
module Generate {
  import opened Strings
  import opened CvssUtils

  // ---------------------------------------------------------------------
  // The metric alphabets

  const AV: seq<string> := ["N", "A", "L", "P"]
  const AC: seq<string> := ["L", "H"]
  const PR: seq<string> := ["N", "L", "H"]
  const UI: seq<string> := ["N", "R"]
  const S: seq<string> := ["U", "C"]
  const C: seq<string> := ["H", "L", "N"]
  const I: seq<string> := ["H", "L", "N"]
  const A: seq<string> := ["H", "L", "N"]

  const CvssParameters: seq<seq<string>> := [AV, AC, PR, UI, S, C, I, A]

  predicate NoDuplicates(xs: seq<string>) {
    forall i, j :: 0 <= i < j < |xs| ==> xs[i] != xs[j]
  }

  /** Every alphabet lists distinct, separator-free values. */
  lemma AlphabetFacts()
    ensures |CvssParameters| == 8
    ensures forall k :: 0 <= k < 8 ==> NoDuplicates(CvssParameters[k]) && AllPlain(CvssParameters[k])
  {
    forall k | 0 <= k < 8 ensures NoDuplicates(CvssParameters[k]) && AllPlain(CvssParameters[k]) {
      // One empty branch per alphabet: with `k` a literal, the alphabet is
      // a concrete list whose elements the verifier compares one by one.
      if k == 0 {} else if k == 1 {} else if k == 2 {} else if k == 3 {}
      else if k == 4 {} else if k == 5 {} else if k == 6 {} else {}
    }
  }

  // ---------------------------------------------------------------------
  // Nested-loop enumeration over any list of alphabets

  /** The combinations that extend `prefix` by one value of each remaining
      alphabet, in the order nested loops visit them. */
  function Expand(alphas: seq<seq<string>>, prefix: seq<string>): (r: seq<seq<string>>)
    requires |prefix| <= |alphas|
    ensures forall n :: 0 <= n < |r| ==> |r[n]| == |alphas|
    decreases |alphas| - |prefix|, 1
  {
    if |prefix| == |alphas| then [prefix]
    else ExpandWith(alphas, prefix, alphas[|prefix|])
  }

  /** The combinations visited while the loop at level `|prefix|` runs over
      the values `xs`. */
  function ExpandWith(alphas: seq<seq<string>>, prefix: seq<string>, xs: seq<string>): (r: seq<seq<string>>)
    requires |prefix| < |alphas|
    ensures forall n :: 0 <= n < |r| ==> |r[n]| == |alphas|
    decreases |alphas| - |prefix|, 0, |xs|
  {
    if xs == [] then []
    else ExpandWith(alphas, prefix, xs[..|xs| - 1]) + Expand(alphas, prefix + [xs[|xs| - 1]])
  }

  /** Every combination of the eight CVSS alphabets, AV outermost. */
  function Combinations(): (r: seq<seq<string>>)
    ensures forall n :: 0 <= n < |r| ==> |r[n]| == 8
  {
    Expand(CvssParameters, [])
  }

  /** The number of combinations of the alphabets from level `from` on. */
  function Size(alphas: seq<seq<string>>, from: nat): nat
    requires from <= |alphas|
    decreases |alphas| - from
  {
    if from == |alphas| then 1 else |alphas[from]| * Size(alphas, from + 1)
  }

  lemma {:induction false} ExpandLength(alphas: seq<seq<string>>, prefix: seq<string>)
    requires |prefix| <= |alphas|
    ensures |Expand(alphas, prefix)| == Size(alphas, |prefix|)
    decreases |alphas| - |prefix|, 1
  {
    if |prefix| < |alphas| {
      ExpandWithLength(alphas, prefix, alphas[|prefix|]);
    }
  }

  lemma {:induction false} ExpandWithLength(alphas: seq<seq<string>>, prefix: seq<string>, xs: seq<string>)
    requires |prefix| < |alphas|
    ensures |ExpandWith(alphas, prefix, xs)| == |xs| * Size(alphas, |prefix| + 1)
    decreases |alphas| - |prefix|, 0, |xs|
  {
    if xs != [] {
      var n := |xs| - 1;
      ExpandWithLength(alphas, prefix, xs[..n]);
      ExpandLength(alphas, prefix + [xs[n]]);
      assert |xs| * Size(alphas, |prefix| + 1) == n * Size(alphas, |prefix| + 1) + Size(alphas, |prefix| + 1);
    }
  }

  /** The enumeration visits 4 * 2 * 3 * 2 * 2 * 3 * 3 * 3 = 2592 combinations. */
  lemma CombinationCount()
    ensures |Combinations()| == 2592
  {
    ExpandLength(CvssParameters, []);
    var P := CvssParameters;
    assert |P[0]| == 4 && |P[1]| == 2 && |P[2]| == 3 && |P[3]| == 2;
    assert |P[4]| == 2 && |P[5]| == 3 && |P[6]| == 3 && |P[7]| == 3;
    assert Size(P, 8) == 1;
    assert Size(P, 7) == 3;
    assert Size(P, 6) == 9;
    assert Size(P, 5) == 27;
    assert Size(P, 4) == 54;
    assert Size(P, 3) == 108;
    assert Size(P, 2) == 324;
    assert Size(P, 1) == 648;
  }

  /** `c` completes `prefix` with one value from each remaining alphabet. */
  predicate Completes(alphas: seq<seq<string>>, prefix: seq<string>, c: seq<string>)
    requires |prefix| <= |alphas|
  {
    |c| == |alphas| && c[..|prefix|] == prefix &&
    forall k :: |prefix| <= k < |alphas| ==> c[k] in alphas[k]
  }

  lemma {:induction false} ExpandMembers(alphas: seq<seq<string>>, prefix: seq<string>, c: seq<string>)
    requires |prefix| <= |alphas|
    ensures c in Expand(alphas, prefix) <==> Completes(alphas, prefix, c)
    decreases |alphas| - |prefix|, 1
  {
    if |prefix| == |alphas| {
      if Completes(alphas, prefix, c) {
        assert c == c[..|prefix|];
      }
    } else {
      ExpandWithMembers(alphas, prefix, alphas[|prefix|], c);
    }
  }

  lemma {:induction false} ExpandWithMembers(alphas: seq<seq<string>>, prefix: seq<string>, xs: seq<string>, c: seq<string>)
    requires |prefix| < |alphas|
    ensures c in ExpandWith(alphas, prefix, xs) <==>
              |c| == |alphas| && c[..|prefix|] == prefix && c[|prefix|] in xs &&
              forall k :: |prefix| < k < |alphas| ==> c[k] in alphas[k]
    decreases |alphas| - |prefix|, 0, |xs|
  {
    var m := |prefix|;
    if xs != [] {
      var n := |xs| - 1;
      var x := xs[n];
      ExpandWithMembers(alphas, prefix, xs[..n], c);
      ExpandMembers(alphas, prefix + [x], c);
      assert xs == xs[..n] + [x];
      if |c| == |alphas| {
        assert c[..m + 1] == c[..m] + [c[m]];
        assert c[..m + 1] == prefix + [x] <==> c[..m] == prefix && c[m] == x;
      }
    }
  }

  /** Every combination of the CVSS alphabets is enumerated, and nothing else. */
  lemma CombinationsComplete(c: seq<string>)
    ensures c in Combinations() <==> |c| == 8 && forall k :: 0 <= k < 8 ==> c[k] in CvssParameters[k]
  {
    ExpandMembers(CvssParameters, [], c);
  }

  // ---------------------------------------------------------------------
  // The order of the enumeration

  /** The position of `x` in the alphabet `xs`. */
  function IndexOf(xs: seq<string>, x: string): (i: nat)
    requires x in xs
    ensures i < |xs| && xs[i] == x
    ensures forall j :: 0 <= j < i ==> xs[j] != x
  {
    if xs[0] == x then 0 else 1 + IndexOf(xs[1..], x)
  }

  /** `c` comes before `d` in nested-loop order: they agree up to some level,
      where `c`'s value is earlier in that level's alphabet. */
  predicate Before(alphas: seq<seq<string>>, c: seq<string>, d: seq<string>) {
    |c| == |alphas| && |d| == |alphas| &&
    exists k :: 0 <= k < |alphas| && c[..k] == d[..k] &&
      c[k] in alphas[k] && d[k] in alphas[k] && IndexOf(alphas[k], c[k]) < IndexOf(alphas[k], d[k])
  }

  predicate InNestedOrder(alphas: seq<seq<string>>, combos: seq<seq<string>>) {
    forall m, n :: 0 <= m < n < |combos| ==> Before(alphas, combos[m], combos[n])
  }

  predicate DistinctAlphabets(alphas: seq<seq<string>>) {
    forall k :: 0 <= k < |alphas| ==> NoDuplicates(alphas[k])
  }

  lemma OrderedConcat(alphas: seq<seq<string>>, xs: seq<seq<string>>, ys: seq<seq<string>>)
    requires InNestedOrder(alphas, xs) && InNestedOrder(alphas, ys)
    requires forall m, n :: 0 <= m < |xs| && 0 <= n < |ys| ==> Before(alphas, xs[m], ys[n])
    ensures InNestedOrder(alphas, xs + ys)
  {
    var zs := xs + ys;
    forall m, n | 0 <= m < n < |zs| ensures Before(alphas, zs[m], zs[n]) {
      if n < |xs| {
        assert zs[m] == xs[m] && zs[n] == xs[n];
      } else if m >= |xs| {
        assert zs[m] == ys[m - |xs|] && zs[n] == ys[n - |xs|];
      } else {
        assert zs[m] == xs[m] && zs[n] == ys[n - |xs|];
      }
    }
  }

  lemma {:induction false} ExpandOrdered(alphas: seq<seq<string>>, prefix: seq<string>)
    requires |prefix| <= |alphas| && DistinctAlphabets(alphas)
    ensures InNestedOrder(alphas, Expand(alphas, prefix))
    decreases |alphas| - |prefix|, 1
  {
    if |prefix| < |alphas| {
      var xs := alphas[|prefix|];
      assert xs[..|xs|] == xs;
      ExpandWithOrdered(alphas, prefix, |xs|);
    }
  }

  /** The loop at level `|prefix|`, after its first `j` iterations, has
      visited its combinations in nested-loop order. */
  lemma {:induction false} ExpandWithOrdered(alphas: seq<seq<string>>, prefix: seq<string>, j: nat)
    requires |prefix| < |alphas| && j <= |alphas[|prefix|]| && DistinctAlphabets(alphas)
    ensures InNestedOrder(alphas, ExpandWith(alphas, prefix, alphas[|prefix|][..j]))
    decreases |alphas| - |prefix|, 0, j
  {
    var m := |prefix|;
    var xs := alphas[m][..j];
    if j > 0 {
      var x := alphas[m][j - 1];
      assert xs[..j - 1] == alphas[m][..j - 1];
      var front := ExpandWith(alphas, prefix, xs[..j - 1]);
      var back := Expand(alphas, prefix + [x]);
      ExpandWithOrdered(alphas, prefix, j - 1);
      ExpandOrdered(alphas, prefix + [x]);
      forall p, q | 0 <= p < |front| && 0 <= q < |back| ensures Before(alphas, front[p], back[q]) {
        var c, d := front[p], back[q];
        ExpandWithMembers(alphas, prefix, xs[..j - 1], c);
        ExpandMembers(alphas, prefix + [x], d);
        var i :| 0 <= i < j - 1 && c[m] == alphas[m][i];
        assert IndexOf(alphas[m], c[m]) == i;
        assert d[..m + 1][m] == x;
        assert IndexOf(alphas[m], d[m]) == j - 1;
        assert c[..m] == prefix == d[..m + 1][..m];
      }
      OrderedConcat(alphas, front, back);
    }
  }

  /** The enumeration is in nested-loop order: AV outermost, A innermost,
      each alphabet in its listed order. */
  lemma CombinationsOrdered()
    ensures InNestedOrder(CvssParameters, Combinations())
  {
    AlphabetFacts();
    ExpandOrdered(CvssParameters, []);
  }

  // ---------------------------------------------------------------------
  // The generator

  /** What one iteration of the innermost loop reports: the vector, and the
      patched vector when a patch was given (scores are not modelled). */
  datatype Row = Vector(vector: string) | VectorAndModified(vector: string, modified: string)

  /** One iteration of the innermost loop; it raises when patching the
      vector raises. */
  function RowOf(combo: seq<string>, patch: seq<string>): Result<Row>
    requires |combo| == 8
  {
    var vector := VectorString(combo[0], combo[1], combo[2], combo[3], combo[4], combo[5], combo[6], combo[7]);
    if |patch| > 0 then
      match Modify(vector, patch)
      case Failure(e) => Failure(e)
      case Ok(modified) => Ok(VectorAndModified(vector, modified))
    else Ok(Vector(vector))
  }

  predicate AllLength8(combos: seq<seq<string>>) {
    forall n :: 0 <= n < |combos| ==> |combos[n]| == 8
  }

  /** Reporting every combination in order; the first report that raises
      stops the run. */
  function Collect(combos: seq<seq<string>>, report: seq<string> --> Result<Row>): (r: Result<seq<Row>>)
    requires forall n :: 0 <= n < |combos| ==> report.requires(combos[n])
    ensures r.Ok? ==> |r.value| == |combos|
    decreases |combos|
  {
    if combos == [] then Ok([])
    else
      var n := |combos| - 1;
      assert forall i :: 0 <= i < n ==> combos[..n][i] == combos[i];
      match Collect(combos[..n], report)
      case Failure(e) => Failure(e)
      case Ok(rows) =>
        match report(combos[n])
        case Failure(e) => Failure(e)
        case Ok(row) => Ok(rows + [row])
  }

  /** Two runs one after the other: the second starts only if the first
      completed. */
  function Concat(a: Result<seq<Row>>, b: Result<seq<Row>>): Result<seq<Row>> {
    match a
    case Failure(e) => Failure(e)
    case Ok(x) =>
      match b
      case Failure(e) => Failure(e)
      case Ok(y) => Ok(x + y)
  }

  lemma {:induction false} CollectConcat(xs: seq<seq<string>>, ys: seq<seq<string>>, report: seq<string> --> Result<Row>)
    requires forall n :: 0 <= n < |xs| ==> report.requires(xs[n])
    requires forall n :: 0 <= n < |ys| ==> report.requires(ys[n])
    ensures forall n :: 0 <= n < |xs + ys| ==> report.requires((xs + ys)[n])
    ensures Collect(xs + ys, report) == Concat(Collect(xs, report), Collect(ys, report))
    decreases |ys|
  {
    var both := xs + ys;
    assert forall n :: 0 <= n < |xs| ==> both[n] == xs[n];
    assert forall n :: 0 <= n < |ys| ==> both[|xs| + n] == ys[n];
    if ys == [] {
      assert both == xs;
      if Collect(xs, report).Ok? {
        assert Collect(xs, report).value + [] == Collect(xs, report).value;
      }
    } else {
      var m := |ys| - 1;
      assert forall i :: 0 <= i < m ==> ys[..m][i] == ys[i];
      CollectConcat(xs, ys[..m], report);
      assert both[..|both| - 1] == xs + ys[..m] && both[|both| - 1] == ys[m];
      if Collect(xs, report).Ok? && Collect(ys[..m], report).Ok? && report(ys[m]).Ok? {
        var x, y, row := Collect(xs, report).value, Collect(ys[..m], report).value, report(ys[m]).value;
        assert (x + y) + [row] == x + (y + [row]);
      }
    }
  }

  /** A run completes exactly when every report does, and then holds each
      report's row at its combination's position. */
  lemma {:induction false} CollectOk(combos: seq<seq<string>>, report: seq<string> --> Result<Row>)
    requires forall n :: 0 <= n < |combos| ==> report.requires(combos[n])
    ensures Collect(combos, report).Ok? <==> forall n :: 0 <= n < |combos| ==> report(combos[n]).Ok?
    ensures Collect(combos, report).Ok? ==>
              forall n :: 0 <= n < |combos| ==> Collect(combos, report).value[n] == report(combos[n]).value
    decreases |combos|
  {
    if combos != [] {
      var n := |combos| - 1;
      var front := combos[..n];
      assert forall i :: 0 <= i < n ==> front[i] == combos[i];
      CollectOk(front, report);
    }
  }

  function Reporter(patch: seq<string>): seq<string> --> Result<Row> {
    combo requires |combo| == 8 => RowOf(combo, patch)
  }

  /** What `generate_all_CVSSstrings(patch)` reports. */
  function Generated(patch: seq<string>): Result<seq<Row>> {
    Collect(Combinations(), Reporter(patch))
  }

  /** The loop over `xs` followed by the loop over `ys`, at one level. */
  lemma {:induction false} ExpandWithAppend(alphas: seq<seq<string>>, prefix: seq<string>, xs: seq<string>, ys: seq<string>)
    requires |prefix| < |alphas|
    ensures ExpandWith(alphas, prefix, xs + ys) == ExpandWith(alphas, prefix, xs) + ExpandWith(alphas, prefix, ys)
    decreases |ys|
  {
    if ys == [] {
      assert xs + ys == xs;
    } else {
      var m := |ys| - 1;
      ExpandWithAppend(alphas, prefix, xs, ys[..m]);
      assert (xs + ys)[..|xs + ys| - 1] == xs + ys[..m] && (xs + ys)[|xs + ys| - 1] == ys[m];
    }
  }

  /** One more iteration of the loop at level `|prefix|`. */
  lemma NextValue(alphas: seq<seq<string>>, prefix: seq<string>, xs: seq<string>, j: nat)
    requires |prefix| < |alphas| && j < |xs|
    ensures ExpandWith(alphas, prefix, xs[..j + 1])
         == ExpandWith(alphas, prefix, xs[..j]) + Expand(alphas, prefix + [xs[j]])
  {
    assert xs[..j + 1][..j] == xs[..j];
  }

  /** The loop at level `|prefix|` is its first `j + 1` iterations and then
      the rest. */
  lemma LevelSplit(alphas: seq<seq<string>>, prefix: seq<string>, j: nat)
    requires |prefix| < |alphas| && j < |alphas[|prefix|]|
    ensures Expand(alphas, prefix)
         == ExpandWith(alphas, prefix, alphas[|prefix|][..j + 1]) + ExpandWith(alphas, prefix, alphas[|prefix|][j + 1..])
  {
    var xs := alphas[|prefix|];
    assert xs == xs[..j + 1] + xs[j + 1..];
    ExpandWithAppend(alphas, prefix, xs[..j + 1], xs[j + 1..]);
  }

  /** The loop at level `|prefix|` has run over its whole alphabet. */
  lemma LevelDone(alphas: seq<seq<string>>, prefix: seq<string>)
    requires |prefix| < |alphas|
    ensures ExpandWith(alphas, prefix, alphas[|prefix|][..|alphas[|prefix|]|]) == Expand(alphas, prefix)
  {
    assert alphas[|prefix|][..|alphas[|prefix|]|] == alphas[|prefix|];
  }

  /** One iteration of the loop at level `|prefix|`: the run so far is
      extended by the inner loops' run, or the whole level raises with it. */
  lemma LevelStep(prefix: seq<string>, j: nat, patch: seq<string>, rows: seq<Row>)
    requires |prefix| < 8 && j < |CvssParameters[|prefix|]|
    requires Collect(ExpandWith(CvssParameters, prefix, CvssParameters[|prefix|][..j]), Reporter(patch)) == Ok(rows)
    ensures var inner := Collect(Expand(CvssParameters, prefix + [CvssParameters[|prefix|][j]]), Reporter(patch));
            (inner.Failure? ==> Collect(Expand(CvssParameters, prefix), Reporter(patch)) == Failure(inner.error)) &&
            (inner.Ok? ==> Collect(ExpandWith(CvssParameters, prefix, CvssParameters[|prefix|][..j + 1]), Reporter(patch))
                           == Ok(rows + inner.value))
  {
    var alphabet := CvssParameters[|prefix|];
    var report := Reporter(patch);
    var done := ExpandWith(CvssParameters, prefix, alphabet[..j]);
    var next := Expand(CvssParameters, prefix + [alphabet[j]]);
    NextValue(CvssParameters, prefix, alphabet, j);
    CollectConcat(done, next, report);
    if Collect(next, report).Failure? {
      LevelSplit(CvssParameters, prefix, j);
      CollectConcat(done + next, ExpandWith(CvssParameters, prefix, alphabet[j + 1..]), report);
    }
  }

  /** The innermost level: the loops have fixed all eight values, and the
      run is the one report of the body. */
  lemma Leaf(prefix: seq<string>, patch: seq<string>)
    requires |prefix| == 8
    ensures var row := RowOf(prefix, patch);
            Collect(Expand(CvssParameters, prefix), Reporter(patch))
            == if row.Ok? then Ok([row.value]) else Failure(row.error)
  {
    assert |CvssParameters| == 8;
    assert [prefix][..0] == [];
    if RowOf(prefix, patch).Ok? {
      assert [] + [RowOf(prefix, patch).value] == [RowOf(prefix, patch).value];
    }
  }

  /** The body of the innermost loop: build the vector string and, when a
      patch is given, the patched vector; a raise while patching propagates.
      It computes `RowOf`, whose meaning `RowOfOk`, `RowOfPatched` and
      `RowsCanonical` state. */
  method Report(combo: seq<string>, patch: seq<string>) returns (row: Result<Row>)
    requires |combo| == 8
    ensures row == RowOf(combo, patch)
  {
    var vector := VectorString(combo[0], combo[1], combo[2], combo[3], combo[4], combo[5], combo[6], combo[7]);
    if |patch| > 0 {
      var merged := Modify(vector, patch);
      if merged.Failure? {
        return Failure(merged.error);
      }
      row := Ok(VectorAndModified(vector, merged.value));
    } else {
      row := Ok(Vector(vector));
    }
  }

  /** The loops from level `|prefix|` inwards, the outer levels having fixed
      `prefix`: one loop over the level's alphabet, the next level reached by
      a recursive call, and at the bottom the body of the innermost loop,
      which counts each row it reports.  A raise stops every loop. */
  method GenerateFrom(prefix: seq<string>, patch: seq<string>) returns (r: Result<seq<Row>>, count: nat)
    requires |prefix| <= 8
    ensures AllLength8(Expand(CvssParameters, prefix))
    ensures r == Collect(Expand(CvssParameters, prefix), Reporter(patch))
    ensures r.Ok? ==> count == |r.value|
    decreases 8 - |prefix|
  {
    count := 0;
    if |prefix| == 8 {
      Leaf(prefix, patch);
      var row := Report(prefix, patch);
      if row.Failure? {
        return Failure(row.error), count;
      }
      count := count + 1;
      r := Ok([row.value]);
    } else {
      var alphabet := CvssParameters[|prefix|];
      var rows := [];
      for j := 0 to |alphabet|
        invariant AllLength8(ExpandWith(CvssParameters, prefix, alphabet[..j]))
        invariant Collect(ExpandWith(CvssParameters, prefix, alphabet[..j]), Reporter(patch)) == Ok(rows)
        invariant count == |rows|
      {
        var inner, innerCount := GenerateFrom(prefix + [alphabet[j]], patch);
        LevelStep(prefix, j, patch, rows);
        if inner.Failure? {
          return Failure(inner.error), count;
        }
        rows := rows + inner.value;
        count := count + innerCount;
      }
      LevelDone(CvssParameters, prefix);
      r := Ok(rows);
    }
  }

  /** `generate_all_CVSSstrings`: every base vector in the nested order of
      the alphabets, one row each, and the number of rows; or the raise of
      the first patching that fails, which happens exactly for a non-empty
      patch that is shorter than eight or keeps a position past the eighth. */
  method GenerateAllCvssStrings(patch: seq<string>) returns (r: Result<seq<Row>>, count: nat)
    ensures r == Generated(patch)
    ensures r.Failure? <==> MergeFails(patch)
    ensures r.Ok? ==> count == |r.value| == 2592
  {
    r, count := GenerateFrom([], patch);
    CombinationCount();
    GeneratedFails(patch);
  }

  // ---------------------------------------------------------------------
  // What the generator reports

  /** A non-empty patch whose merge into eight values raises: it is too
      short for `CVSS_list`, or it keeps ("X") a position past the eighth. */
  predicate MergeFails(patch: seq<string>) {
    |patch| > 0 && (|patch| < 8 || exists k :: 8 <= k < |patch| && patch[k] == "X")
  }

  /** Every enumerated combination is eight separator-free values. */
  lemma CombinationPlain(c: seq<string>)
    requires c in Combinations()
    ensures |c| == 8 && AllPlain(c)
  {
    CombinationsComplete(c);
    AlphabetFacts();
    forall k | 0 <= k < 8 ensures Plain(c[k]) {
      assert AllPlain(CvssParameters[k]);
    }
  }

  /** Patching the vector of eight separator-free values raises exactly
      when the patch is one that `MergeFails` describes. */
  lemma ModifyFails(c: seq<string>, patch: seq<string>)
    requires |c| == 8 && AllPlain(c) && |patch| > 0
    ensures Modify(VectorList(c).value, patch).Failure? <==> MergeFails(patch)
  {
    ValuesOfVectorList(c);
    var m := ModifyVector(c, patch);
    if m.Ok? {
      assert |m.value| == |patch|;
    }
  }

  /** One iteration raises exactly for a patch that `MergeFails` describes. */
  lemma RowOfOk(c: seq<string>, patch: seq<string>)
    requires |c| == 8 && AllPlain(c)
    ensures RowOf(c, patch).Ok? <==> !MergeFails(patch)
  {
    if |patch| > 0 {
      ModifyFails(c, patch);
    }
  }

  /** The generator raises exactly for a patch that `MergeFails` describes;
      it then raises on its very first iteration. */
  lemma GeneratedFails(patch: seq<string>)
    ensures Generated(patch).Failure? <==> MergeFails(patch)
    ensures MergeFails(patch) ==> RowOf(Combinations()[0], patch).Failure?
  {
    var combos := Combinations();
    CombinationCount();
    CollectOk(combos, Reporter(patch));
    forall n | 0 <= n < |combos| ensures RowOf(combos[n], patch).Ok? <==> !MergeFails(patch) {
      CombinationPlain(combos[n]);
      RowOfOk(combos[n], patch);
    }
  }

  /** Row `n` of a completed run is what the body reports for combination
      `n`. */
  lemma GeneratedRow(patch: seq<string>, n: nat)
    requires n < 2592
    ensures |Combinations()| == 2592 && |Combinations()[n]| == 8 && AllPlain(Combinations()[n])
    ensures Generated(patch).Ok? ==> |Generated(patch).value| == 2592 && RowOf(Combinations()[n], patch).Ok?
    ensures Generated(patch).Ok? ==> Generated(patch).value[n] == RowOf(Combinations()[n], patch).value
  {
    CombinationCount();
    CollectOk(Combinations(), Reporter(patch));
    CombinationPlain(Combinations()[n]);
  }

  /** Row `n` carries the canonical vector of combination `n`: the preamble
      and the eight `code:value` fields joined by '/', from which
      `CVSS_values` recovers exactly the combination; the patched vector is
      present exactly when a patch was given. */
  lemma RowsCanonical(patch: seq<string>, n: nat)
    requires n < 2592
    ensures Generated(patch).Ok? ==> |Generated(patch).value| == 2592
    ensures Generated(patch).Ok? ==>
              Generated(patch).value[n].vector == Join(Layout(Combinations()[n]), Separator)
    ensures Generated(patch).Ok? ==> Values(Generated(patch).value[n].vector) == Ok(Combinations()[n])
    ensures Generated(patch).Ok? ==> (Generated(patch).value[n].VectorAndModified? <==> |patch| > 0)
  {
    GeneratedRow(patch, n);
    var c := Combinations()[n];
    VectorStringLayout(c);
    ValuesOfVectorString(c);
  }

  /** No combination is enumerated twice. */
  lemma CombinationsDistinct(m: nat, n: nat)
    requires m < n < |Combinations()|
    ensures Combinations()[m] != Combinations()[n]
  {
    var c, d := Combinations()[m], Combinations()[n];
    CombinationsOrdered();
    AlphabetFacts();
    assert Before(CvssParameters, c, d);
    var k :| 0 <= k < 8 && c[..k] == d[..k] && c[k] in CvssParameters[k] && d[k] in CvssParameters[k]
             && IndexOf(CvssParameters[k], c[k]) < IndexOf(CvssParameters[k], d[k]);
    assert c[k] != d[k];
  }

  /** The generator never reports the same vector twice. */
  lemma RowsDistinct(patch: seq<string>, m: nat, n: nat)
    requires m < n < 2592
    ensures Generated(patch).Ok? ==> |Generated(patch).value| == 2592
    ensures Generated(patch).Ok? ==> Generated(patch).value[m].vector != Generated(patch).value[n].vector
  {
    CombinationCount();
    CombinationsDistinct(m, n);
    RowsCanonical(patch, m);
    RowsCanonical(patch, n);
  }

  /** One iteration with the script's patch `L,X,X,X,X,H,H,H`. */
  lemma RowOfPatched(c: seq<string>, patch: seq<string>)
    requires |c| == 8 && AllPlain(c) && ExamplePatch(patch)
    ensures RowOf(c, patch)
            == Ok(VectorAndModified(VectorString(c[0], c[1], c[2], c[3], c[4], c[5], c[6], c[7]),
                                    VectorString("L", c[1], c[2], c[3], c[4], "H", "H", "H")))
  {
    ModifyCanonical(c, patch);
    var merged := ModifyVector(c, patch).value;
    assert merged[0] == "L" && merged[5] == "H" && merged[6] == "H" && merged[7] == "H";
    assert merged[1] == c[1] && merged[2] == c[2] && merged[3] == c[3] && merged[4] == c[4];
  }

  /** With the patch `L,X,X,X,X,H,H,H` used by the script, the generator
      completes, and every row's patched vector is the row's vector with
      attack vector Local and confidentiality, integrity and availability
      High. */
  lemma RowsPatched(patch: seq<string>, n: nat)
    requires ExamplePatch(patch)
    requires n < 2592
    ensures Generated(patch).Ok? && |Generated(patch).value| == 2592
    ensures var c := Combinations()[n];
            Generated(patch).value[n]
            == VectorAndModified(VectorString(c[0], c[1], c[2], c[3], c[4], c[5], c[6], c[7]),
                                 VectorString("L", c[1], c[2], c[3], c[4], "H", "H", "H"))
  {
    assert !MergeFails(patch);
    GeneratedFails(patch);
    GeneratedRow(patch, n);
    RowOfPatched(Combinations()[n], patch);
  }
}
