/** Splitting a sequence at a separator, joining it again, and sums. */
module Sequences {

  /** The pieces between separators, empty ones included; there is always at least one. */
  function Split<T(==)>(s: seq<T>, sep: T): (parts: seq<seq<T>>)
    ensures |parts| > 0
  {
    if s == [] then [[]]
    else
      var rest := Split(s[1..], sep);
      if s[0] == sep then [[]] + rest else [[s[0]] + rest[0]] + rest[1..]
  }

  function Join<T>(parts: seq<seq<T>>, sep: T): seq<T>
    requires |parts| > 0
  {
    if |parts| == 1 then parts[0] else parts[0] + [sep] + Join(parts[1..], sep)
  }

  lemma {:induction false} JoinSplit<T>(s: seq<T>, sep: T)
    ensures Join(Split(s, sep), sep) == s
    ensures forall part | part in Split(s, sep) :: sep !in part
  {
    if s != [] {
      JoinSplit(s[1..], sep);
      var parts, rest := Split(s, sep), Split(s[1..], sep);
      if s[0] == sep {
        assert parts[1..] == rest;
      } else {
        assert parts[1..] == rest[1..];
        assert rest[0] in rest;
      }
    }
  }

  /** A first piece without separators is split off unchanged. */
  lemma {:induction false} SplitFirst<T>(part: seq<T>, s: seq<T>, sep: T)
    requires sep !in part
    ensures Split(part, sep) == [part]
    ensures Split(part + [sep] + s, sep) == [part] + Split(s, sep)
  {
    if part == [] {
      assert ([sep] + s)[1..] == s;
      assert part + [sep] + s == [sep] + s;
    } else {
      SplitFirst(part[1..], s, sep);
      assert part == [part[0]] + part[1..];
      assert (part + [sep] + s)[1..] == part[1..] + [sep] + s;
    }
  }

  lemma {:induction false} SplitJoin<T>(parts: seq<seq<T>>, sep: T)
    requires |parts| > 0
    requires forall part | part in parts :: sep !in part
    ensures Split(Join(parts, sep), sep) == parts
  {
    if |parts| == 1 {
      SplitFirst(parts[0], [], sep);
    } else {
      SplitJoin(parts[1..], sep);
      SplitFirst(parts[0], Join(parts[1..], sep), sep);
    }
  }

  // ----- Cutting a sequence at its first end mark -----

  /** What comes before the first `end`, or everything. */
  function Before<T(==)>(s: seq<T>, end: T): seq<T> {
    if s == [] || s[0] == end then [] else [s[0]] + Before(s[1..], end)
  }

  lemma {:induction false} BeforeCons<T>(x: T, s: seq<T>, end: T)
    ensures Before([x] + s, end) == if x == end then [] else [x] + Before(s, end)
    ensures end in [x] + s <==> x == end || end in s
  {
    assert ([x] + s)[1..] == s;
  }

  lemma {:induction false} BeforeAppend<T>(s: seq<T>, t: seq<T>, end: T)
    ensures Before(s + t, end) == if end in s then Before(s, end) else s + Before(t, end)
  {
    hide Before;
    if s == [] {
      assert s + t == t;
    } else {
      var x, rest := s[0], s[1..];
      BeforeAppend(rest, t, end);
      assert s == [x] + rest;
      BeforeCons(x, rest, end);
      BeforeCons(x, rest + t, end);
      Regroup(x, rest, t);
      Regroup(x, rest, Before(t, end));
    }
  }

  lemma {:induction false} Regroup<T>(x: T, s: seq<T>, t: seq<T>)
    ensures [x] + s + t == [x] + (s + t)
  {
  }

  lemma {:induction false} BeforeClean<T>(s: seq<T>, end: T)
    ensures end !in Before(s, end)
  {
    if s != [] && s[0] != end {
      BeforeClean(s[1..], end);
    }
  }

  lemma {:induction false} BeforeNone<T>(s: seq<T>, end: T)
    requires end !in s
    ensures Before(s, end) == s
  {
    BeforeAppend(s, [], end);
    assert s + [] == s && Before([], end) == [];
  }

  lemma {:induction false} BeforeIsFollowed<T>(s: seq<T>, end: T)
    requires end in s
    ensures Before(s, end) + [end] <= s
  {
    if s[0] != end {
      assert s == [s[0]] + s[1..];
      BeforeIsFollowed(s[1..], end);
    }
  }
}
