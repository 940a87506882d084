/**
 Splitting a report into lines the way Python's `str.split("\n")` does, and
 joining lines back together. The report renderer consumes one segment per
 drawn line, so the number and content of segments decide the layout.
 */
module Lines {

  const Newline: char := '\n'

  /** `s` holds no newline character. */
  predicate OneLine(s: string) {
    forall i :: 0 <= i < |s| ==> s[i] != Newline
  }

  /** Number of occurrences of `c` in `s` (Python's `s.count(c)` for one char). */
  function Count(s: string, c: char): (n: nat)
    ensures n <= |s|
    ensures n == 0 <==> c !in s
  {
    if s == [] then 0
    else (if s[0] == c then 1 else 0) + Count(s[1..], c)
  }

  /**
   The segments of `s` separated by `'\n'`: a newline ends the current
   segment and opens a new, initially empty one. The empty string yields one
   empty segment, like `"".split("\n") == [""]`.
   */
  function Split(s: string): (parts: seq<string>)
    ensures |parts| >= 1
    ensures forall i :: 0 <= i < |parts| ==> OneLine(parts[i])
  {
    if s == [] then [""]
    else
      var rest := Split(s[1..]);
      if s[0] == Newline then [""] + rest
      else [[s[0]] + rest[0]] + rest[1..]
  }

  /** One segment more than there are newlines: `len(s.split("\n")) == s.count("\n") + 1`. */
  lemma {:induction false} SplitCount(s: string)
    ensures |Split(s)| == Count(s, Newline) + 1
  {
    if s != [] {
      SplitCount(s[1..]);
    }
  }

  /** `"\n".join(parts)`, restricted to at least one part. */
  function Join(parts: seq<string>): string
    requires |parts| >= 1
  {
    if |parts| == 1 then parts[0]
    else parts[0] + [Newline] + Join(parts[1..])
  }

  /** Joining the segments restores the original text. */
  lemma {:induction false} JoinSplit(s: string)
    ensures Join(Split(s)) == s
  {
    if s != [] {
      var rest := Split(s[1..]);
      JoinSplit(s[1..]);
      if s[0] == Newline {
        assert Split(s) == [""] + rest;
        assert Join(Split(s)) == "" + [Newline] + Join(rest);
        assert s == [s[0]] + s[1..];
      } else {
        JoinHead(rest, [s[0]]);
        assert s == [s[0]] + s[1..];
      }
    }
  }

  /** Prepending to the first part prepends to the joined text. */
  lemma {:induction false} JoinHead(parts: seq<string>, pre: string)
    requires |parts| >= 1
    ensures Join([pre + parts[0]] + parts[1..]) == pre + Join(parts)
  {
    var ps := [pre + parts[0]] + parts[1..];
    if |parts| == 1 {
      assert ps == [pre + parts[0]];
    } else {
      assert ps[1..] == parts[1..];
      assert Join(ps) == pre + parts[0] + [Newline] + Join(parts[1..]);
    }
  }

  /** A character other than a newline joins the first segment of what follows it. */
  lemma SplitCons(c: char, t: string)
    requires c != Newline
    ensures Split([c] + t) == [[c] + Split(t)[0]] + Split(t)[1..]
  {
    assert ([c] + t)[1..] == t;
  }

  /** Splitting text with no newline in its head: the head glues onto the first segment. */
  lemma {:induction false} SplitPrefix(a: string, t: string)
    requires OneLine(a)
    ensures Split(a + t) == [a + Split(t)[0]] + Split(t)[1..]
    decreases |a|, 1
  {
    if a == [] {
      SplitEmptyPrefix(t);
    } else {
      SplitPrefixStep(a, t);
    }
  }

  lemma SplitEmptyPrefix(t: string)
    ensures Split([] + t) == [[] + Split(t)[0]] + Split(t)[1..]
  {
    assert [] + t == t;
    assert [] + Split(t)[0] == Split(t)[0];
  }

  lemma {:induction false} SplitPrefixStep(a: string, t: string)
    requires OneLine(a) && a != []
    ensures Split(a + t) == [a + Split(t)[0]] + Split(t)[1..]
    decreases |a|, 0
  {
      var tail := a[1..];
      assert OneLine(tail) by {
        forall k | 0 <= k < |tail| ensures tail[k] != Newline {
          assert tail[k] == a[k + 1];
        }
      }
      SplitPrefix(tail, t);
      assert a + t == [a[0]] + (tail + t);
      SplitCons(a[0], tail + t);
      var first := Split(t)[0];
      assert [a[0]] + tail == a;
      assert [a[0]] + (tail + first) == ([a[0]] + tail) + first;
  }

  /** Splitting joined newline-free segments gives the segments back. */
  lemma {:induction false} SplitJoin(parts: seq<string>)
    requires |parts| >= 1
    requires forall i :: 0 <= i < |parts| ==> OneLine(parts[i])
    ensures Split(Join(parts)) == parts
  {
    if |parts| == 1 {
      SplitPrefix(parts[0], "");
      assert parts[0] + "" == parts[0];
    } else {
      var tail := parts[1..];
      SplitJoin(tail);
      var t := [Newline] + Join(tail);
      assert Split(t) == [""] + Split(Join(tail));
      SplitPrefix(parts[0], t);
      assert Join(parts) == parts[0] + t;
      assert parts[0] + "" == parts[0];
      assert parts == [parts[0]] + tail;
    }
  }
}
