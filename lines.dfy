// Splitting text into newline-separated fragments, as Python's `str.split(sep)`
// does, and the inverse operation that puts the fragments back together.

module Lines {

  /** The number of occurrences of `sep` in `s`. */
  function Count(s: string, sep: char): nat {
    multiset(s)[sep]
  }

  /** Python's `s.split(sep)` for a one-character separator: every occurrence
      of `sep` separates two fragments, empty fragments are kept (between two
      adjacent separators, before a leading one, after a trailing one), and the
      result is never empty (`"".split(sep) == [""]`). */
  function Split(s: string, sep: char): (r: seq<string>)
    ensures |r| >= 1
    ensures forall i :: 0 <= i < |r| ==> sep !in r[i]
  {
    if s == [] then [""]
    else
      var rest := Split(s[1..], sep);
      if s[0] == sep then [""] + rest
      else [[s[0]] + rest[0]] + rest[1..]
  }

  /** Each of `ls`, followed by `sep`, concatenated in order: the text a
      sequence of complete lines stands for. */
  function Terminated(ls: seq<string>, sep: char): (t: string)
    ensures ls == [] <==> t == []
    ensures ls != [] ==> t[|t| - 1] == sep
  {
    if ls == [] then [] else ls[0] + [sep] + Terminated(ls[1..], sep)
  }

  lemma {:induction false} TerminatedAppend(a: seq<string>, b: seq<string>, sep: char)
    ensures Terminated(a + b, sep) == Terminated(a, sep) + Terminated(b, sep)
  {
    if a != [] {
      assert (a + b)[1..] == a[1..] + b;
      TerminatedAppend(a[1..], b, sep);
    } else {
      assert a + b == b;
    }
  }

  /** A text without a separator is a single fragment, and only such a text is. */
  lemma {:induction false} SplitWithoutSep(s: string, sep: char)
    ensures Split(s, sep) == [s] <==> sep !in s
  {
    if Split(s, sep) == [s] {
      assert Split(s, sep)[0] == s;
    }
    if sep !in s && s != [] {
      assert sep !in s[1..] by {
        forall i | 0 <= i < |s[1..]| ensures s[1..][i] != sep { assert s[1..][i] == s[i + 1]; }
      }
      SplitWithoutSep(s[1..], sep);
      assert [s[0]] + s[1..] == s;
    }
  }

  /** A sep-free text followed by a separator contributes exactly one fragment. */
  lemma {:induction false} SplitAfterFirstSep(l: string, x: string, sep: char)
    requires sep !in l
    ensures Split(l + [sep] + x, sep) == [l] + Split(x, sep)
  {
    if l == [] {
      assert l + [sep] + x == [sep] + x;
      assert ([sep] + x)[1..] == x;
    } else {
      var s := l + [sep] + x;
      assert s[1..] == l[1..] + [sep] + x;
      SplitAfterFirstSep(l[1..], x, sep);
      assert [l[0]] + l[1..] == l;
    }
  }

  /** Round trip: the complete fragments, each followed by the separator, and
      then the last fragment, give back the text that was split. */
  lemma {:induction false} SplitRecombine(s: string, sep: char)
    ensures var r := Split(s, sep); Terminated(r[..|r| - 1], sep) + r[|r| - 1] == s
  {
    if s != [] {
      var rest := Split(s[1..], sep);
      SplitRecombine(s[1..], sep);
      var r := Split(s, sep);
      var init := rest[..|rest| - 1];
      if s[0] == sep {
        assert r == [""] + rest;
        assert r[..|r| - 1] == [""] + init;
        assert ([""] + init)[1..] == init;
        assert [s[0]] + s[1..] == s;
      } else if |rest| == 1 {
        assert r == [[s[0]] + rest[0]];
        assert [s[0]] + s[1..] == s;
      } else {
        assert r == [[s[0]] + rest[0]] + rest[1..];
        assert r[..|r| - 1] == [[s[0]] + rest[0]] + rest[1..|rest| - 1];
        assert ([[s[0]] + rest[0]] + rest[1..|rest| - 1])[1..] == rest[1..|rest| - 1];
        assert init == [rest[0]] + rest[1..|rest| - 1];
        assert init[1..] == rest[1..|rest| - 1];
        assert [s[0]] + s[1..] == s;
      }
    }
  }

  /** The converse round trip: sep-free lines, terminated and followed by a
      sep-free rest, split back into exactly those lines and that rest. */
  lemma {:induction false} SplitTerminated(ls: seq<string>, last: string, sep: char)
    requires forall i :: 0 <= i < |ls| ==> sep !in ls[i]
    requires sep !in last
    ensures Split(Terminated(ls, sep) + last, sep) == ls + [last]
  {
    if ls == [] {
      assert Terminated(ls, sep) + last == last;
      SplitWithoutSep(last, sep);
    } else {
      SplitTerminated(ls[1..], last, sep);
      assert Terminated(ls, sep) + last == ls[0] + [sep] + (Terminated(ls[1..], sep) + last);
      SplitAfterFirstSep(ls[0], Terminated(ls[1..], sep) + last, sep);
      assert ls == [ls[0]] + ls[1..];
    }
  }

  /** There is one fragment more than there are separators. */
  lemma {:induction false} SplitCount(s: string, sep: char)
    ensures |Split(s, sep)| == Count(s, sep) + 1
  {
    if s != [] {
      SplitCount(s[1..], sep);
      assert s == [s[0]] + s[1..];
      assert multiset(s) == multiset([s[0]]) + multiset(s[1..]);
    }
  }

  /** The last fragment is empty exactly when the text is empty or ends with
      the separator. */
  lemma SplitLastEmpty(s: string, sep: char)
    ensures var r := Split(s, sep); r[|r| - 1] == [] <==> (s == [] || s[|s| - 1] == sep)
  {
    var r := Split(s, sep);
    SplitRecombine(s, sep);
    if r[|r| - 1] != [] && s != [] {
      assert s[|s| - 1] == r[|r| - 1][|r[|r| - 1]| - 1];
      assert r[|r| - 1][|r[|r| - 1]| - 1] in r[|r| - 1];
    }
  }
}
