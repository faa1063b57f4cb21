/**
 * The string primitives the collection relies on: upper-casing (used to
 * normalise subjects and predicates), splitting a line on a separator
 * character and joining fields back with it.
 */
module Text {

  /** Upper-cases one ASCII letter; every other character is left alone. */
  function UpperChar(c: char): char {
    if 'a' <= c <= 'z' then (c as int - 32) as char else c
  }

  /** The upper-cased form of a string, character by character. */
  function Upper(s: string): (r: string)
    ensures |r| == |s|
    ensures forall i | 0 <= i < |s| :: r[i] == UpperChar(s[i])
    ensures forall i | 0 <= i < |r| :: !('a' <= r[i] <= 'z')
  {
    if s == [] then [] else [UpperChar(s[0])] + Upper(s[1..])
  }

  /** Upper-casing an upper-cased string changes nothing. */
  lemma {:induction false} UpperIdempotent(s: string)
    ensures Upper(Upper(s)) == Upper(s)
  {
    if s != [] {
      UpperIdempotent(s[1..]);
    }
  }

  /** A string with no lower-case letter is its own upper-cased form. */
  lemma UpperFixed(s: string)
    requires forall i | 0 <= i < |s| :: !('a' <= s[i] <= 'z')
    ensures Upper(s) == s
  {
  }

  /** Two strings equal up to case normalise to the same key. */
  lemma UpperAgreesOnCase(s: string, t: string)
    requires |s| == |t|
    requires forall i | 0 <= i < |s| :: UpperChar(s[i]) == UpperChar(t[i])
    ensures Upper(s) == Upper(t)
  {
  }

  /** The number of occurrences of `c` in `s`. */
  function Count(s: string, c: char): (n: nat)
    ensures n <= |s|
    ensures n == 0 <==> c !in s
  {
    if s == [] then 0 else (if s[0] == c then 1 else 0) + Count(s[1..], c)
  }

  /**
   * The fields of `s` between occurrences of `c`, as `str.split` gives them:
   * there is always one field more than there are separators, and no field
   * contains the separator.
   */
  function Split(s: string, c: char): (r: seq<string>)
    ensures |r| == Count(s, c) + 1
    ensures forall i | 0 <= i < |r| :: c !in r[i]
    decreases |s|
  {
    if s == [] then [""]
    else if s[0] == c then [""] + Split(s[1..], c)
    else
      var rest := Split(s[1..], c);
      [[s[0]] + rest[0]] + rest[1..]
  }

  /**
   * The fields of `parts` with `c` between consecutive ones, as `str.join`
   * gives them: the first field comes first, followed by the separator when
   * another field follows.
   */
  function Join(parts: seq<string>, c: char): (r: string)
    ensures |parts| >= 1 ==> parts[0] <= r
    ensures |parts| >= 2 ==> |r| > |parts[0]| && r[|parts[0]|] == c
    decreases |parts|
  {
    if |parts| == 0 then ""
    else if |parts| == 1 then parts[0]
    else parts[0] + [c] + Join(parts[1..], c)
  }

  /** Joining the fields of a split gives back the original string. */
  lemma {:induction false} JoinSplit(s: string, c: char)
    ensures Join(Split(s, c), c) == s
    decreases |s|
  {
    if s == [] {
    } else if s[0] == c {
      JoinSplit(s[1..], c);
      var rest := Split(s[1..], c);
      assert Split(s, c) == [""] + rest;
      assert ([""] + rest)[1..] == rest;
    } else {
      JoinSplit(s[1..], c);
      var rest := Split(s[1..], c);
      var head := [s[0]] + rest[0];
      assert Split(s, c) == [head] + rest[1..];
      if |rest| == 1 {
        assert Join(rest, c) == rest[0];
      } else {
        assert ([head] + rest[1..])[1..] == rest[1..];
        assert Join(rest, c) == rest[0] + [c] + Join(rest[1..], c);
      }
      assert s == [s[0]] + s[1..];
    }
  }

  /** A string without the separator is one field. */
  lemma {:induction false} SplitNoSeparator(a: string, c: char)
    requires c !in a
    ensures Split(a, c) == [a]
    decreases |a|
  {
    if a != [] {
      SplitNoSeparator(a[1..], c);
      assert a == [a[0]] + a[1..];
    }
  }

  /** A separator-free field followed by the separator splits off as the first field. */
  lemma {:induction false} SplitAfterField(a: string, t: string, c: char)
    requires c !in a
    ensures Split(a + [c] + t, c) == [a] + Split(t, c)
    decreases |a|
  {
    var s := a + [c] + t;
    if a == [] {
      assert s == [c] + t;
      assert s[1..] == t;
    } else {
      assert s[0] == a[0];
      assert s[1..] == a[1..] + [c] + t;
      SplitAfterField(a[1..], t, c);
      assert a == [a[0]] + a[1..];
    }
  }

  /** Splitting a join of separator-free fields gives back the fields. */
  lemma {:induction false} SplitJoin(parts: seq<string>, c: char)
    requires |parts| >= 1
    requires forall i | 0 <= i < |parts| :: c !in parts[i]
    ensures Split(Join(parts, c), c) == parts
    decreases |parts|
  {
    if |parts| == 1 {
      SplitNoSeparator(parts[0], c);
    } else {
      SplitAfterField(parts[0], Join(parts[1..], c), c);
      SplitJoin(parts[1..], c);
      assert parts == [parts[0]] + parts[1..];
    }
  }

  /** Joining fields, one of which is itself a join of the rest, is one flat join. */
  lemma JoinRegroup(a: string, b: string, rest: seq<string>, c: char)
    requires |rest| >= 1
    ensures Join([a, b, Join(rest, c)], c) == Join([a, b] + rest, c)
  {
    assert ([a, b] + rest)[1..] == [b] + rest;
    assert ([b] + rest)[1..] == rest;
    assert [a, b, Join(rest, c)][1..] == [b, Join(rest, c)];
    assert [b, Join(rest, c)][1..] == [Join(rest, c)];
    assert Join([b] + rest, c) == b + [c] + Join(rest, c);
    assert Join([b, Join(rest, c)], c) == b + [c] + Join([Join(rest, c)], c);
  }
}
