/** String helpers with the semantics of Python's `sep.join(parts)`,
    `s.split(sep)` and `s.split(c, 1)` for a one-character separator,
    together with the facts that make them inverse to each other. */
module Text {

  /** `s` occurs in `whole` as a contiguous block of characters. */
  ghost predicate Contains(whole: string, s: string)
  {
    exists i :: OccursAt(whole, s, i)
  }

  /** `s` occurs in `whole` starting at index `i`. */
  ghost predicate OccursAt(whole: string, s: string, i: int)
  {
    0 <= i <= |whole| - |s| && whole[i..i + |s|] == s
  }

  /** The combined length of all parts. */
  function TotalLength(parts: seq<string>): nat
    decreases |parts|
  {
    if parts == [] then 0 else |parts[0]| + TotalLength(parts[1..])
  }

  /** Python's `sep.join(parts)`: the parts with one `sep` between each two,
      so the joined text is as long as the parts plus one separator per gap. */
  function Join(parts: seq<string>, sep: char): (r: string)
    ensures |parts| == 0 ==> r == ""
    ensures |parts| > 0 ==> |r| == TotalLength(parts) + |parts| - 1
    decreases |parts|
  {
    if |parts| == 0 then ""
    else if |parts| == 1 then parts[0]
    else parts[0] + [sep] + Join(parts[1..], sep)
  }

  /** Python's `s.split(sep)`: the maximal `sep`-free pieces of `s`, in order;
      the empty string splits into one empty piece. */
  function Split(s: string, sep: char): (r: seq<string>)
    ensures |r| > 0
    ensures forall i :: 0 <= i < |r| ==> sep !in r[i]
    decreases |s|
  {
    if s == [] then [""]
    else if s[0] == sep then [""] + Split(s[1..], sep)
    else
      var rest := Split(s[1..], sep);
      [[s[0]] + rest[0]] + rest[1..]
  }

  /** Python's `s.split(c, 1)` taken as a pair: the text before the first `c`
      and the text after it; without a `c`, the whole text and "". */
  function Cut(s: string, c: char): (r: (string, string))
    ensures c !in r.0
    ensures c in s ==> r.0 + [c] + r.1 == s
    ensures c !in s ==> r == (s, "")
    decreases |s|
  {
    if s == [] then ("", "")
    else if s[0] == c then ("", s[1..])
    else
      var p := Cut(s[1..], c);
      assert s == [s[0]] + s[1..];
      ([s[0]] + p.0, p.1)
  }

  /** Cutting `a + [c] + b` at `c` gives back `a` and `b` when `a` holds no `c`. */
  lemma {:induction false} CutAtSeparator(a: string, c: char, b: string)
    requires c !in a
    ensures Cut(a + [c] + b, c) == (a, b)
    decreases |a|
  {
    if a == [] {
      assert a + [c] + b == [c] + b;
    } else {
      assert (a + [c] + b)[0] == a[0] && a[0] != c;
      assert (a + [c] + b)[1..] == a[1..] + [c] + b;
      assert c !in a[1..];
      CutAtSeparator(a[1..], c, b);
      assert [a[0]] + a[1..] == a;
    }
  }

  /** Appending one more part adds one separator and that part. */
  lemma {:induction false} JoinSnoc(parts: seq<string>, sep: char, last: string)
    requires |parts| > 0
    ensures Join(parts + [last], sep) == Join(parts, sep) + [sep] + last
    decreases |parts|
  {
    if |parts| == 1 {
      assert parts + [last] == [parts[0], last];
      assert [last][1..] == [];
    } else {
      assert (parts + [last])[1..] == parts[1..] + [last];
      JoinSnoc(parts[1..], sep, last);
    }
  }

  /** Splitting `a` followed by more text, when `a` holds no separator:
      `a` is glued to the first piece of the rest. */
  lemma {:induction false} SplitSeparatorFree(a: string, t: string, sep: char)
    requires sep !in a
    ensures Split(a + t, sep) == [a + Split(t, sep)[0]] + Split(t, sep)[1..]
    decreases |a|
  {
    if a != [] {
      assert (a + t)[0] == a[0] && a[0] != sep;
      assert (a + t)[1..] == a[1..] + t;
      assert sep !in a[1..];
      SplitSeparatorFree(a[1..], t, sep);
      assert [a[0]] + (a[1..] + Split(t, sep)[0]) == a + Split(t, sep)[0];
    } else {
      assert a + t == t;
      assert a + Split(t, sep)[0] == Split(t, sep)[0];
      assert Split(t, sep) == [Split(t, sep)[0]] + Split(t, sep)[1..];
    }
  }

  /** Splitting a joined list at its separator gives the list back, provided
      no part holds the separator and there is at least one part. */
  lemma {:induction false} SplitJoin(parts: seq<string>, sep: char)
    requires |parts| > 0
    requires forall i :: 0 <= i < |parts| ==> sep !in parts[i]
    ensures Split(Join(parts, sep), sep) == parts
    decreases |parts|
  {
    if |parts| == 1 {
      SplitSeparatorFree(parts[0], "", sep);
      assert parts[0] + "" == parts[0];
    } else {
      var tail := Join(parts[1..], sep);
      SplitJoin(parts[1..], sep);
      var t := [sep] + tail;
      assert Join(parts, sep) == parts[0] + t;
      SplitSeparatorFree(parts[0], t, sep);
      assert Split(t, sep) == [""] + parts[1..] by {
        assert t[0] == sep && t[1..] == tail;
      }
      assert parts[0] + "" == parts[0];
    }
  }

  /** Prefixing a character to the first part prefixes it to the join. */
  lemma {:induction false} JoinConsFirst(c: char, first: string, rest: seq<string>, sep: char)
    ensures Join([[c] + first] + rest, sep) == [c] + Join([first] + rest, sep)
  {
    var xs, ys := [[c] + first] + rest, [first] + rest;
    if rest == [] {
    } else {
      assert xs[1..] == rest && ys[1..] == rest;
    }
  }

  /** Joining the pieces of a split gives the text back: nothing is lost by
      splitting. */
  lemma {:induction false} JoinSplit(s: string, sep: char)
    ensures Join(Split(s, sep), sep) == s
    decreases |s|
  {
    if s == [] {
    } else if s[0] == sep {
      var rest := Split(s[1..], sep);
      JoinSplit(s[1..], sep);
      assert ([""] + rest)[1..] == rest;
      assert s == [sep] + s[1..];
    } else {
      var rest := Split(s[1..], sep);
      JoinSplit(s[1..], sep);
      JoinConsFirst(s[0], rest[0], rest[1..], sep);
      assert [rest[0]] + rest[1..] == rest;
      assert s == [s[0]] + s[1..];
    }
  }

  /** Containment survives putting text before or after. */
  lemma {:induction false} ContainsExtend(pre: string, s: string, post: string, sub: string)
    requires Contains(s, sub)
    ensures Contains(pre + s + post, sub)
  {
    var i :| OccursAt(s, sub, i);
    var j := |pre| + i;
    assert (pre + s + post)[j..j + |sub|] == s[i..i + |sub|];
    assert OccursAt(pre + s + post, sub, j);
  }

  /** Every part of a join occurs in the joined text. */
  lemma {:induction false} JoinContainsPart(parts: seq<string>, sep: char, k: nat)
    requires k < |parts|
    ensures Contains(Join(parts, sep), parts[k])
    decreases |parts|
  {
    if |parts| == 1 || k == 0 {
      var p := parts[0];
      assert p[0..|p|] == p;
      assert OccursAt(p, p, 0);
      if |parts| == 1 {
        assert Join(parts, sep) == "" + p + "";
      } else {
        assert Join(parts, sep) == "" + p + ([sep] + Join(parts[1..], sep));
      }
      ContainsExtend("", p, if |parts| == 1 then "" else [sep] + Join(parts[1..], sep), p);
    } else {
      JoinContainsPart(parts[1..], sep, k - 1);
      assert Join(parts, sep) == (parts[0] + [sep]) + Join(parts[1..], sep) + "";
      ContainsExtend(parts[0] + [sep], Join(parts[1..], sep), "", parts[k]);
    }
  }
}
