/**
 * The .NET string operations the core relies on, over `seq<char>`:
 * `IndexOf` (as an ordinal search), `Replace(x, "")` for a single character,
 * and the split/join pair used to read a query string back.
 */
module Text {

  /** `pat` occurs in `s` starting at index `i`. */
  predicate OccursAt(s: string, pat: string, i: int)
  {
    0 <= i && i + |pat| <= |s| && s[i..i + |pat|] == pat
  }

  /** First occurrence of `pat` in `s` at or after `from`, or -1. */
  function IndexOfFrom(s: string, pat: string, from: nat): (r: int)
    requires from <= |s|
    ensures r == -1 || (from <= r && OccursAt(s, pat, r))
    ensures forall j :: from <= j && (r == -1 || j < r) ==> !OccursAt(s, pat, j)
    decreases |s| - from
  {
    if from + |pat| > |s| then -1
    else if s[from..from + |pat|] == pat then from
    else IndexOfFrom(s, pat, from + 1)
  }

  /** `s.IndexOf(pat)`: the first index at which `pat` occurs, or -1 when it never does. */
  function IndexOf(s: string, pat: string): (r: int)
    ensures r == -1 || OccursAt(s, pat, r)
    ensures forall j :: 0 <= j && (r == -1 || j < r) ==> !OccursAt(s, pat, j)
  {
    IndexOfFrom(s, pat, 0)
  }

  /** An occurrence with none before it is what `IndexOf` finds. */
  lemma FirstOccurrence(s: string, pat: string, p: nat)
    requires OccursAt(s, pat, p)
    requires forall j :: 0 <= j < p ==> !OccursAt(s, pat, j)
    ensures IndexOf(s, pat) == p
  {
  }

  /** One mismatching character rules out an occurrence. */
  lemma NoOccurrenceAt(s: string, pat: string, j: nat, i: nat)
    requires i < |pat| && j + i < |s|
    requires s[j + i] != pat[i]
    ensures !OccursAt(s, pat, j)
  {
    if j + |pat| <= |s| {
      assert s[j..j + |pat|][i] == s[j + i];
    }
  }

  /** Searching for a one-character string finds the first copy of that character. */
  lemma IndexOfCharFindsFirst(s: string, c: char)
    ensures var r := IndexOf(s, [c]);
            (r == -1 <==> c !in s) &&
            (r != -1 ==> 0 <= r < |s| && s[r] == c && c !in s[..r])
  {
    var r := IndexOf(s, [c]);
    if c in s {
      var j :| 0 <= j < |s| && s[j] == c;
      assert s[j..j + 1] == [c];
      assert OccursAt(s, [c], j);
    }
    if r != -1 {
      assert s[r] == s[r..r + 1][0] == c;
      if c in s[..r] {
        var j :| 0 <= j < r && s[..r][j] == c;
        assert s[j..j + 1] == [c];
        assert OccursAt(s, [c], j);
      }
    }
  }

  /** When `c` does not occur in `a`, the first `c` in `a + [c] + t` is the one right after `a`. */
  lemma IndexOfCharAfterPrefix(a: string, c: char, t: string)
    requires c !in a
    ensures IndexOf(a + [c] + t, [c]) == |a|
  {
    var s := a + [c] + t;
    IndexOfCharFindsFirst(s, c);
    var r := IndexOf(s, [c]);
    assert s[|a|] == c;
  }

  /** `s.Replace(c.ToString(), "")`: `s` with every copy of `c` deleted. */
  function Without(s: string, c: char): (r: string)
    ensures c !in r
    ensures |r| <= |s|
  {
    if s == [] then []
    else
      if s[0] == c then Without(s[1..], c) else [s[0]] + Without(s[1..], c)
  }

  /** Deleting `c` removes all of its copies and keeps every other character as often as it occurred. */
  lemma {:induction false} WithoutCounts(s: string, c: char, x: char)
    ensures multiset(Without(s, c))[x] == if x == c then 0 else multiset(s)[x]
  {
    if s != [] {
      assert s == [s[0]] + s[1..];
      WithoutCounts(s[1..], c, x);
    }
  }

  /** Deleting a character that is absent changes nothing. */
  lemma {:induction false} WithoutAbsent(s: string, c: char)
    requires c !in s
    ensures Without(s, c) == s
  {
    if s != [] {
      WithoutAbsent(s[1..], c);
    }
  }

  /** A prefix free of `c` is kept as it is. */
  lemma WithoutAbsentPrefix(a: string, t: string, c: char)
    requires c !in a
    ensures Without(a + t, c) == a + Without(t, c)
  {
    WithoutAppend(a, t, c);
    WithoutAbsent(a, c);
  }

  /** Deleting a character works piece by piece. */
  lemma {:induction false} WithoutAppend(a: string, b: string, c: char)
    ensures Without(a + b, c) == Without(a, c) + Without(b, c)
  {
    if a == [] {
      assert a + b == b;
    } else {
      assert (a + b)[1..] == a[1..] + b;
      WithoutAppend(a[1..], b, c);
    }
  }

  /** Fields joined with a one-character separator, as `string.Join`. */
  function JoinWith(fields: seq<string>, sep: char): string
  {
    if |fields| == 0 then ""
    else if |fields| == 1 then fields[0]
    else fields[0] + [sep] + JoinWith(fields[1..], sep)
  }

  /** Joining one more field appends the separator and that field. */
  lemma {:induction false} JoinWithSnoc(fields: seq<string>, f: string, sep: char)
    requires |fields| >= 1
    ensures JoinWith(fields + [f], sep) == JoinWith(fields, sep) + [sep] + f
    decreases |fields|
  {
    var fs := fields + [f];
    if |fields| > 1 {
      assert fs[1..] == fields[1..] + [f];
      JoinWithSnoc(fields[1..], f, sep);
    }
  }

  /** A field holding the separator joins to the same text as the two fields either side of it. */
  lemma {:induction false} JoinWithSplitsField(a: seq<string>, u: string, v: string, b: seq<string>, sep: char)
    ensures JoinWith(a + [u + [sep] + v] + b, sep) == JoinWith(a + [u, v] + b, sep)
    decreases |a|
  {
    var w := u + [sep] + v;
    if a == [] {
      assert a + [w] + b == [w] + b;
      assert a + [u, v] + b == [u] + ([v] + b);
      assert ([u] + ([v] + b))[1..] == [v] + b;
      if b != [] {
        assert ([w] + b)[1..] == b;
        assert ([v] + b)[1..] == b;
      }
    } else {
      assert (a + [w] + b)[1..] == a[1..] + [w] + b;
      assert (a + [u, v] + b)[1..] == a[1..] + [u, v] + b;
      JoinWithSplitsField(a[1..], u, v, b, sep);
    }
  }

  /** `s.Split(sep)`: the pieces between separators; always at least one. */
  function Split(s: string, sep: char): (r: seq<string>)
    ensures |r| >= 1
    ensures forall i :: 0 <= i < |r| ==> sep !in r[i]
  {
    if |s| == 0 then [""]
    else
      var rest := Split(s[1..], sep);
      if s[0] == sep then [""] + rest
      else [[s[0]] + rest[0]] + rest[1..]
  }

  /** A separator-free prefix glues onto the first piece of what follows. */
  lemma {:induction false} SplitPrefix(a: string, t: string, sep: char)
    requires sep !in a
    ensures Split(a + t, sep) == [a + Split(t, sep)[0]] + Split(t, sep)[1..]
    decreases |a|
  {
    var pieces := Split(t, sep);
    if a == [] {
      assert a + t == t;
      assert a + pieces[0] == pieces[0];
      assert pieces == [pieces[0]] + pieces[1..];
    } else {
      assert (a + t)[1..] == a[1..] + t;
      SplitPrefix(a[1..], t, sep);
      assert [a[0]] + (a[1..] + Split(t, sep)[0]) == a + Split(t, sep)[0];
    }
  }

  /** Splitting undoes joining when no field contains the separator. */
  lemma {:induction false} SplitJoin(fields: seq<string>, sep: char)
    requires |fields| >= 1
    requires forall i :: 0 <= i < |fields| ==> sep !in fields[i]
    ensures Split(JoinWith(fields, sep), sep) == fields
    decreases |fields|
  {
    if |fields| == 1 {
      SplitPrefix(fields[0], "", sep);
      assert fields[0] + "" == fields[0];
    } else {
      var t := [sep] + JoinWith(fields[1..], sep);
      assert JoinWith(fields, sep) == fields[0] + t;
      SplitPrefix(fields[0], t, sep);
      SplitJoin(fields[1..], sep);
      assert t[1..] == JoinWith(fields[1..], sep);
      assert Split(t, sep) == [""] + fields[1..];
      assert fields[0] + "" == fields[0];
      assert fields == [fields[0]] + fields[1..];
    }
  }
}
