/** Python's `str.split(sep)` for a one-character separator, and its
    inverse `sep.join(parts)`, as used throughout the vector toolkit. */
module Strings {

  /** `s.split(sep)`: the maximal runs of `s` between separators, in order.
      There is always at least one (possibly empty) field. */
  function Split(s: string, sep: char): (r: seq<string>)
    ensures |r| >= 1
    ensures forall k :: 0 <= k < |r| ==> sep !in r[k]
    ensures sep in s <==> |r| >= 2
    ensures sep !in s ==> r == [s]
    decreases |s|
  {
    if s == [] then [""]
    else
      var rest := Split(s[1..], sep);
      assert s == [s[0]] + s[1..];
      if s[0] == sep then [""] + rest
      else [[s[0]] + rest[0]] + rest[1..]
  }

  /** `sep.join(parts)` for a non-empty list of parts. */
  function Join(parts: seq<string>, sep: char): (r: string)
    requires |parts| >= 1
    ensures |parts| >= 2 ==> sep in r
    decreases |parts|
  {
    if |parts| == 1 then parts[0]
    else parts[0] + [sep] + Join(parts[1..], sep)
  }

  /** One step of a join, starting at part `j`. */
  lemma JoinStep(parts: seq<string>, sep: char, j: nat)
    requires j + 1 < |parts|
    ensures Join(parts[j..], sep) == parts[j] + [sep] + Join(parts[j + 1..], sep)
  {
    assert parts[j..][1..] == parts[j + 1..];
  }

  /** The first `k + 1` parts are the first `k` and then part `k`. */
  lemma TakeOneMore(parts: seq<string>, k: nat)
    requires k < |parts|
    ensures parts[..k + 1] == parts[..k] + [parts[k]]
  {
  }

  /** Splitting a string that starts with the separator: an empty first field. */
  lemma SplitConsSep(t: string, sep: char)
    ensures Split([sep] + t, sep) == [""] + Split(t, sep)
  {
    assert ([sep] + t)[1..] == t;
  }

  /** Splitting a string that starts with another character: it joins the first field. */
  lemma SplitConsChar(c: char, t: string, sep: char)
    requires c != sep
    ensures Split([c] + t, sep) == [[c] + Split(t, sep)[0]] + Split(t, sep)[1..]
  {
    assert ([c] + t)[1..] == t;
  }

  /** Joining one more part appends a separator and the part. */
  lemma {:induction false} JoinSnoc(parts: seq<string>, p: string, sep: char)
    requires |parts| >= 1
    ensures Join(parts + [p], sep) == Join(parts, sep) + [sep] + p
    decreases |parts|
  {
    if |parts| >= 2 {
      JoinSnoc(parts[1..], p, sep);
      assert (parts + [p])[1..] == parts[1..] + [p];
      var a, b := parts[0] + [sep], Join(parts[1..], sep);
      assert a + (b + [sep] + p) == (a + b) + [sep] + p;
    }
  }

  /** Splitting a string extended by a separator and a separator-free
      field adds that field to the split. */
  lemma {:induction false} SplitSnoc(a: string, sep: char, f: string)
    requires sep !in f
    ensures Split(a + [sep] + f, sep) == Split(a, sep) + [f]
    decreases |a|
  {
    if a == [] {
      assert a + [sep] + f == [sep] + f;
      SplitConsSep(f, sep);
    } else {
      var c, t := a[0], a[1..];
      var r := Split(t, sep);
      assert a == [c] + t && a + [sep] + f == [c] + (t + [sep] + f);
      assert Split(t + [sep] + f, sep) == r + [f] by { SplitSnoc(t, sep, f); }
      if c == sep {
        SplitConsSep(t + [sep] + f, sep);
        SplitConsSep(t, sep);
        assert [""] + (r + [f]) == ([""] + r) + [f];
      } else {
        SplitConsChar(c, t + [sep] + f, sep);
        SplitConsChar(c, t, sep);
        assert (r + [f])[0] == r[0] && (r + [f])[1..] == r[1..] + [f];
        assert [[c] + r[0]] + (r[1..] + [f]) == ([[c] + r[0]] + r[1..]) + [f];
      }
    }
  }

  /** Splitting stops at the first separator. */
  lemma {:induction false} SplitAtFirst(a: string, sep: char, b: string)
    requires sep !in a
    ensures Split(a + [sep] + b, sep) == [a] + Split(b, sep)
    decreases |a|
  {
    if a == [] {
      assert a + [sep] + b == [sep] + b;
      SplitConsSep(b, sep);
    } else {
      var c, t := a[0], a[1..];
      var r := Split(b, sep);
      assert a == [c] + t && a + [sep] + b == [c] + (t + [sep] + b);
      assert Split(t + [sep] + b, sep) == [t] + r by { SplitAtFirst(t, sep, b); }
      SplitConsChar(c, t + [sep] + b, sep);
      assert ([t] + r)[0] == t && ([t] + r)[1..] == r;
    }
  }

  /** Joining the fields of a split gives back the original string. */
  lemma {:induction false} JoinSplit(s: string, sep: char)
    ensures Join(Split(s, sep), sep) == s
    decreases |s|
  {
    if s != [] {
      var c, t := s[0], s[1..];
      var rest := Split(t, sep);
      assert s == [c] + t;
      assert Join(rest, sep) == t by { JoinSplit(t, sep); }
      if c == sep {
        SplitConsSep(t, sep);
        JoinConsEmpty(rest, sep);
      } else {
        SplitConsChar(c, t, sep);
        JoinConsChar(c, rest, sep);
      }
    }
  }

  /** An empty first part contributes only its separator. */
  lemma JoinConsEmpty(rest: seq<string>, sep: char)
    requires |rest| >= 1
    ensures Join([""] + rest, sep) == [sep] + Join(rest, sep)
  {
    assert ([""] + rest)[1..] == rest;
  }

  /** A character prefixed to the first part prefixes the join. */
  lemma JoinConsChar(c: char, rest: seq<string>, sep: char)
    requires |rest| >= 1
    ensures Join([[c] + rest[0]] + rest[1..], sep) == [c] + Join(rest, sep)
  {
    var r := [[c] + rest[0]] + rest[1..];
    if |rest| >= 2 {
      assert r[1..] == rest[1..];
      var a, b := rest[0], Join(rest[1..], sep);
      assert Join(rest, sep) == a + [sep] + b;
      assert ([c] + a) + [sep] + b == [c] + (a + [sep] + b);
    }
  }

  /** Splitting the join of separator-free parts gives back the parts. */
  lemma {:induction false} SplitJoin(parts: seq<string>, sep: char)
    requires |parts| >= 1
    requires forall k :: 0 <= k < |parts| ==> sep !in parts[k]
    ensures Split(Join(parts, sep), sep) == parts
    decreases |parts|
  {
    if |parts| >= 2 {
      SplitJoin(parts[1..], sep);
      SplitAtFirst(parts[0], sep, Join(parts[1..], sep));
      assert [parts[0]] + parts[1..] == parts;
    }
  }

  /** A string `a:b` with no separator in `a` or `b` splits into exactly `[a, b]`. */
  lemma SplitPair(a: string, sep: char, b: string)
    requires sep !in a && sep !in b
    ensures Split(a + [sep] + b, sep) == [a, b]
  {
    SplitAtFirst(a, sep, b);
  }
}
