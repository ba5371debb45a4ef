/** The handful of Python string and list operations the two batch scripts
    rely on, with the semantics CPython gives them: `sep.join(xs)`,
    `s.endswith(t)`, `t in s`, `s.replace(old, new)`, `s.rpartition(sep)`,
    `os.path.join(dir, name)` and a filtering list comprehension. */
module PyStr {

  /** Summed character length of a list of strings, counted from the last
      element back, as a running total over a growing list counts it. */
  function SumLen(xs: seq<string>): nat
  {
    if xs == [] then 0 else SumLen(xs[..|xs| - 1]) + |xs[|xs| - 1]|
  }

  /** The same sum, taken from the front. */
  lemma {:induction false} SumLenFront(xs: seq<string>)
    requires xs != []
    ensures SumLen(xs) == |xs[0]| + SumLen(xs[1..])
  {
    if |xs| > 1 {
      var init := xs[..|xs| - 1];
      SumLenFront(init);
      assert init[1..] == xs[1..][..|xs[1..]| - 1];
    } else {
      assert xs[..0] == [] && xs[1..] == [];
    }
  }

  /** `sep.join(xs)`: every element once, in order, with one separator
      between neighbours, starting with the first element. */
  function Join(xs: seq<string>, sep: string): (r: string)
    ensures xs != [] ==> |xs[0]| <= |r| && r[..|xs[0]|] == xs[0]
  {
    if |xs| == 0 then ""
    else if |xs| == 1 then xs[0]
    else xs[0] + sep + Join(xs[1..], sep)
  }

  /** The joined string is as long as its elements together plus one
      separator between each pair of neighbours. */
  lemma {:induction false} JoinLength(xs: seq<string>, sep: string)
    ensures |Join(xs, sep)| == SumLen(xs) + (if xs == [] then 0 else |sep| * (|xs| - 1))
  {
    if xs != [] {
      SumLenFront(xs);
      if |xs| > 1 {
        JoinLength(xs[1..], sep);
      }
    }
  }

  /** `s.endswith(suffix)`. */
  predicate EndsWith(s: string, suffix: string)
  {
    |suffix| <= |s| && s[|s| - |suffix|..] == suffix
  }

  /** Position `i` of `s` starts a copy of `sub`. */
  predicate OccursAt(s: string, sub: string, i: int)
  {
    0 <= i && i + |sub| <= |s| && s[i..i + |sub|] == sub
  }


  /** `s.replace(pat, repl)` for a non-empty `pat`: scanning from the left,
      every non-overlapping occurrence of `pat` is replaced by `repl`. */
  function Replace(s: string, pat: string, repl: string): (r: string)
    requires |pat| > 0
    ensures |repl| == |pat| ==> |r| == |s|
    decreases |s|
  {
    if |s| < |pat| then s
    else if s[..|pat|] == pat then repl + Replace(s[|pat|..], pat, repl)
    else [s[0]] + Replace(s[1..], pat, repl)
  }

  /** A string in which the pattern does not occur is left as it is. */
  lemma {:induction false} ReplaceAbsent(s: string, pat: string, repl: string)
    requires |pat| > 0 && !Contains(s, pat)
    ensures Replace(s, pat, repl) == s
    decreases |s|
  {
    if |s| >= |pat| {
      assert !OccursAt(s, pat, 0);
      assert forall i :: OccursAt(s[1..], pat, i) ==> OccursAt(s, pat, i + 1);
      ReplaceAbsent(s[1..], pat, repl);
      assert [s[0]] + s[1..] == s;
    }
  }

  /** The largest position `i <= j` at which `sep` occurs in `s`, or -1. */
  function LastOccurrence(s: string, sep: string, j: int): (i: int)
    ensures i == -1 || 0 <= i <= j
    ensures i >= 0 ==> OccursAt(s, sep, i)
    ensures forall k :: i < k <= j ==> !OccursAt(s, sep, k)
    decreases j + 1
  {
    if j < 0 then -1
    else if OccursAt(s, sep, j) then j
    else LastOccurrence(s, sep, j - 1)
  }

  /** `sub in s`: some position of `s` starts a copy of `sub`. */
  predicate Contains(s: string, sub: string)
  {
    exists i | 0 <= i <= |s| :: OccursAt(s, sub, i)
  }

  /** `sub in s` exactly when the search from the right end finds a copy. */
  lemma ContainsFound(s: string, sub: string)
    ensures Contains(s, sub) <==> LastOccurrence(s, sub, |s| - |sub|) >= 0
  {
  }

  /** `s.rpartition(sep)` for a non-empty `sep`: the split at the LAST
      occurrence of `sep`, or `("", "", s)` when there is none. */
  function RPartition(s: string, sep: string): (r: (string, string, string))
    requires |sep| > 0
    ensures r.0 + r.1 + r.2 == s
    ensures r.1 == sep ==> OccursAt(s, sep, |r.0|)
    ensures r.1 == sep ==> forall k :: |r.0| < k ==> !OccursAt(s, sep, k)
    ensures r.1 != sep ==> r == ("", "", s) && !Contains(s, sep)
  {
    var i := LastOccurrence(s, sep, |s| - |sep|);
    if i < 0 then ("", "", s)
    else
      assert s[..i] + sep + s[i + |sep|..] == s;
      (s[..i], sep, s[i + |sep|..])
  }

  /** `os.path.join(directory, name)` for a name that is a plain file name
      (as `os.listdir` returns): a separator is inserted unless the directory
      is empty or already ends with one. */
  function PathJoin(directory: string, name: string): (r: string)
    ensures EndsWith(r, name)
  {
    if directory == [] || directory[|directory| - 1] == '/' then directory + name
    else directory + "/" + name
  }

  /** `[x for x in xs if keep(x)]`. */
  function Filter(xs: seq<string>, keep: string -> bool): (r: seq<string>)
    ensures |r| <= |xs|
    ensures forall x :: x in r <==> x in xs && keep(x)
  {
    if xs == [] then []
    else if keep(xs[0]) then [xs[0]] + Filter(xs[1..], keep)
    else Filter(xs[1..], keep)
  }

  /** The comprehension keeps the listing's order: filtering a concatenation
      filters each part and concatenates the results. */
  lemma {:induction false} FilterAppend(xs: seq<string>, ys: seq<string>, keep: string -> bool)
    ensures Filter(xs + ys, keep) == Filter(xs, keep) + Filter(ys, keep)
  {
    if xs != [] {
      assert (xs + ys)[0] == xs[0];
      assert (xs + ys)[1..] == xs[1..] + ys;
      FilterAppend(xs[1..], ys, keep);
    } else {
      assert xs + ys == ys;
    }
  }

  /** Replacing a pattern that cannot overlap itself distributes over a final
      occurrence of that pattern: `(s + p).replace(p, n) == s.replace(p, n) + n`.
      Here the pattern is the `.csv` extension. */
  lemma {:induction false} ReplaceFinalExtension(s: string, repl: string)
    ensures Replace(s + ".csv", ".csv", repl) == Replace(s, ".csv", repl) + repl
    decreases |s|
  {
    var p := ".csv";
    var t := s + p;
    if s == [] {
      assert t == p;
      assert t[|p|..] == [];
    } else if |s| < |p| {
      assert t[..|p|] != p by {
        if |s| == 1 { assert t[1] == '.'; }
        else if |s| == 2 { assert t[2] == '.'; }
        else { assert t[3] == '.'; }
      }
      assert t[1..] == s[1..] + p;
      ReplaceFinalExtension(s[1..], repl);
      assert Replace(s, p, repl) == s;
      assert Replace(s[1..], p, repl) == s[1..];
    } else if s[..|p|] == p {
      assert t[..|p|] == p;
      assert t[|p|..] == s[|p|..] + p;
      ReplaceFinalExtension(s[|p|..], repl);
    } else {
      assert t[..|p|] == s[..|p|];
      assert t[1..] == s[1..] + p;
      ReplaceFinalExtension(s[1..], repl);
    }
  }

  /** A string that ends with `suffix` contains it. */
  lemma EndsWithContains(s: string, suffix: string)
    requires EndsWith(s, suffix)
    ensures Contains(s, suffix)
  {
    assert OccursAt(s, suffix, |s| - |suffix|);
  }

  /** Whatever ends with `a + b` ends with `b`. */
  lemma EndsWithSuffix(s: string, a: string, b: string)
    requires EndsWith(s, a + b)
    ensures EndsWith(s, b)
  {
    assert s[|s| - |b|..] == s[|s| - |a + b|..][|a|..];
  }

  /** Ending with `t`, which ends with `u`, a string ends with `u`. */
  lemma EndsWithTrans(s: string, t: string, u: string)
    requires EndsWith(s, t) && EndsWith(t, u)
    ensures EndsWith(s, u)
  {
    assert s[|s| - |u|..] == s[|s| - |t|..][|t| - |u|..];
  }

  /** Dropping the final `b` from a string that ends with `a + b` leaves a
      string that ends with `a`. */
  lemma EndsWithDrop(s: string, a: string, b: string)
    requires EndsWith(s, a + b)
    ensures EndsWith(s[..|s| - |b|], a)
  {
    assert s[..|s| - |b|][|s| - |b| - |a|..] == s[|s| - |a + b|..][..|a|];
  }

  /** Appending `t` to a string that ends with `a` gives one ending with `a + t`. */
  lemma EndsWithAppend(s: string, a: string, t: string)
    requires EndsWith(s, a)
    ensures EndsWith(s + t, a + t)
  {
    assert (s + t)[|s + t| - |a + t|..] == s[|s| - |a|..] + t;
  }

  /** `s.rpartition(sep)` of a string that ends with `sep` splits at that
      final occurrence: the head is `s` without it. */
  lemma RPartitionFinal(s: string, sep: string)
    requires |sep| > 0 && EndsWith(s, sep)
    ensures RPartition(s, sep).0 == s[..|s| - |sep|]
  {
    EndsWithContains(s, sep);
    var r := RPartition(s, sep);
    assert OccursAt(s, sep, |s| - |sep|);
    assert |r.0| == |s| - |sep|;
    assert r.0 == (r.0 + r.1 + r.2)[..|r.0|];
  }
}
