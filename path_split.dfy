/** Splitting a path on '/' as JavaScript's `String.prototype.split("/")` does:
    every separator ends one segment, so "" gives [""], "/a" gives ["", "a"]
    and "a/" gives ["a", ""]. */
module PathSplit {

  const Sep: char := '/'

  function Split(s: string): (parts: seq<string>)
    ensures |parts| >= 1
    ensures forall i :: 0 <= i < |parts| ==> Sep !in parts[i]
    ensures parts[0] == "" <==> s == "" || s[0] == Sep
  {
    if s == [] then [""]
    else if s[0] == Sep then
      assert s == [s[0]] + s[1..];
      [""] + Split(s[1..])
    else
      var rest := Split(s[1..]);
      assert s == [s[0]] + s[1..];
      [[s[0]] + rest[0]] + rest[1..]
  }

  /** There is one segment more than there are separators. */
  lemma {:induction false} SplitCount(s: string)
    ensures |Split(s)| == multiset(s)[Sep] + 1
  {
    if s != [] {
      SplitCount(s[1..]);
      assert s == [s[0]] + s[1..];
      assert multiset(s) == multiset{s[0]} + multiset(s[1..]);
    }
  }

  /** Joins segments with '/', the inverse of Split. */
  function Join(parts: seq<string>): (s: string)
    requires |parts| >= 1
  {
    if |parts| == 1 then parts[0] else parts[0] + [Sep] + Join(parts[1..])
  }

  lemma {:induction false} JoinSplit(s: string)
    ensures Join(Split(s)) == s
  {
    if s != [] {
      var rest := Split(s[1..]);
      JoinSplit(s[1..]);
      assert s == [s[0]] + s[1..];
      if s[0] == Sep {
        JoinCons("", rest);
      } else {
        JoinExtendHead(s[0], rest);
      }
    }
  }

  lemma JoinCons(w: string, rest: seq<string>)
    requires |rest| >= 1
    ensures Join([w] + rest) == w + [Sep] + Join(rest)
  {
    assert ([w] + rest)[1..] == rest;
  }

  /** Putting a character in front of the first segment puts it in front of the joined string. */
  lemma JoinExtendHead(c: char, rest: seq<string>)
    requires |rest| >= 1
    ensures Join([[c] + rest[0]] + rest[1..]) == [c] + Join(rest)
  {
    var x := rest[0];
    var head := [c] + x;
    var parts := [head] + rest[1..];
    if |rest| > 1 {
      var tail := Join(rest[1..]);
      assert head + [Sep] + tail == [c] + (x + [Sep] + tail);
      assert parts[1..] == rest[1..];
    }
  }

  lemma {:induction false} SplitJoin(parts: seq<string>)
    requires |parts| >= 1
    requires forall i :: 0 <= i < |parts| ==> Sep !in parts[i]
    ensures Split(Join(parts)) == parts
  {
    if |parts| == 1 {
      SplitNoSep(parts[0]);
    } else {
      SplitJoin(parts[1..]);
      SplitPrefix(parts[0], Join(parts[1..]));
      assert [parts[0]] + parts[1..] == parts;
    }
  }

  /** A string without separators is a single segment. */
  lemma {:induction false} SplitNoSep(w: string)
    requires Sep !in w
    ensures Split(w) == [w]
  {
    if w != [] {
      SplitNoSep(w[1..]);
      assert w == [w[0]] + w[1..];
    }
  }

  /** Splitting `w + "/" + t` puts `w` in front of the segments of `t`. */
  lemma {:induction false} SplitPrefix(w: string, t: string)
    requires Sep !in w
    ensures Split(w + [Sep] + t) == [w] + Split(t)
  {
    var s := w + [Sep] + t;
    if w == [] {
      assert s == [Sep] + t;
    } else {
      var w' := w[1..];
      assert w == [w[0]] + w';
      assert Sep !in w' && w[0] != Sep;
      SplitPrefix(w', t);
      var s' := w' + [Sep] + t;
      assert s == [w[0]] + s';
      SplitUncons(w[0], s');
    }
  }

  /** Split of a string starting with a non-separator extends the first segment. */
  lemma SplitUncons(c: char, s': string)
    requires c != Sep
    ensures Split([c] + s') == [[c] + Split(s')[0]] + Split(s')[1..]
  {
    assert ([c] + s')[1..] == s';
  }
}
