/** Python's `str.split(sep)` with an explicit one-character separator, and its
    inverse `sep.join(parts)`, over strings as sequences of characters. */
module Segments {

  /** Number of occurrences of `c` in `s` (Python's `s.count(c)`). */
  function Count(s: string, c: char): (n: nat)
    ensures n <= |s|
    ensures n == 0 <==> c !in s
  {
    if s == [] then 0
    else (if s[0] == c then 1 else 0) + Count(s[1..], c)
  }

  /** `sep.join(parts)`: the parts with one `sep` between neighbours; no parts give "". */
  function Join(parts: seq<string>, sep: char): string
  {
    if |parts| == 0 then ""
    else if |parts| == 1 then parts[0]
    else parts[0] + [sep] + Join(parts[1..], sep)
  }

  /** `s.split(sep)`: the maximal runs between separators, empty runs kept, so
      "" gives [""] and "a..b" gives ["a", "", "b"]. */
  function Split(s: string, sep: char): (r: seq<string>)
    ensures |r| == Count(s, sep) + 1
    ensures forall i :: 0 <= i < |r| ==> sep !in r[i]
    ensures Join(r, sep) == s
  {
    if |s| == 0 then [""]
    else
      var rest := Split(s[1..], sep);
      assert [s[0]] + s[1..] == s;
      if s[0] == sep then
        JoinEmptyHead(rest, sep);
        [""] + rest
      else
        JoinGlueHead(s[0], rest, sep);
        [[s[0]] + rest[0]] + rest[1..]
  }

  /** Proof step for Split: an empty first part contributes only its separator. */
  lemma JoinEmptyHead(rest: seq<string>, sep: char)
    requires |rest| >= 1
    ensures Join([""] + rest, sep) == [sep] + Join(rest, sep)
  {
    assert ([""] + rest)[1..] == rest;
  }

  /** Proof step for Split: a character glued onto the first part comes first
      in the joined text. */
  lemma JoinGlueHead(c: char, rest: seq<string>, sep: char)
    requires |rest| >= 1
    ensures Join([[c] + rest[0]] + rest[1..], sep) == [c] + Join(rest, sep)
  {
    var parts := [[c] + rest[0]] + rest[1..];
    assert parts[1..] == rest[1..];
    if |rest| > 1 {
      assert ([c] + rest[0]) + [sep] + Join(rest[1..], sep)
          == [c] + (rest[0] + [sep] + Join(rest[1..], sep));
    }
  }

  /** Proof step for SplitPrefix: a leading non-separator character joins the
      first segment (one unfolding of Split, kept apart to keep that proof small). */
  lemma SplitCons(c: char, u: string, sep: char)
    requires c != sep
    ensures Split([c] + u, sep) == [[c] + Split(u, sep)[0]] + Split(u, sep)[1..]
  {
    assert ([c] + u)[0] == c && ([c] + u)[1..] == u;
  }

  /** Splitting a text that starts with a separator-free piece `p` glues `p`
      onto the first segment of the rest and leaves the others alone. */
  lemma {:induction false} SplitPrefix(p: string, t: string, sep: char)
    requires sep !in p
    ensures Split(p + t, sep) == [p + Split(t, sep)[0]] + Split(t, sep)[1..]
  {
    var st := Split(t, sep);
    if p == [] {
      assert p + t == t;
      assert [st[0]] + st[1..] == st;
      assert p + st[0] == st[0];
    } else {
      var u := p[1..] + t;
      assert p + t == [p[0]] + u;
      SplitCons(p[0], u, sep);
      SplitPrefix(p[1..], t, sep);
      HeadTailAppend(p, st[0]);
    }
  }

  /** Proof step for SplitJoin: a leading separator opens an empty first segment. */
  lemma SplitSepCons(t: string, sep: char)
    ensures Split([sep] + t, sep) == [""] + Split(t, sep)
  {
    assert ([sep] + t)[0] == sep && ([sep] + t)[1..] == t;
  }

  /** Proof step for SplitPrefix: regrouping a concatenation around its head. */
  lemma HeadTailAppend(x: string, y: string)
    requires |x| > 0
    ensures [x[0]] + (x[1..] + y) == x + y
  {
    assert [x[0]] + x[1..] == x;
  }

  /** A separator-free string splits into itself. */
  lemma SplitNoSeparator(p: string, sep: char)
    requires sep !in p
    ensures Split(p, sep) == [p]
  {
    SplitPrefix(p, "", sep);
    assert p + "" == p;
  }

  /** Splitting undoes joining: for one or more separator-free parts,
      `sep.join(parts).split(sep) == parts`. */
  lemma {:induction false} SplitJoin(parts: seq<string>, sep: char)
    requires |parts| >= 1
    requires forall i :: 0 <= i < |parts| ==> sep !in parts[i]
    ensures Split(Join(parts, sep), sep) == parts
  {
    if |parts| == 1 {
      SplitNoSeparator(parts[0], sep);
    } else {
      var tail := Join(parts[1..], sep);
      SplitJoin(parts[1..], sep);
      assert parts[0] + [sep] + tail == parts[0] + ([sep] + tail);
      SplitPrefix(parts[0], [sep] + tail, sep);
      SplitSepCons(tail, sep);
      assert parts[0] + "" == parts[0];
      assert [parts[0]] + parts[1..] == parts;
    }
  }
}
