/**
 * The three operations of Go's `strings` package that the caller hook calls,
 * `Split` (for a one-character separator), `Contains` and `TrimPrefix`, with
 * two reference definitions: `Join`, the inverse of `Split`, and the last-index
 * search that gives the meaning of "the text after the last separator".
 * Strings are sequences of characters.
 */
module GoStrings {
  import opened Wrappers

  /** `strings.Split(s, string(sep))`: the pieces of `s` between occurrences of `sep`.
      Built from the back: appending a character either opens a new, empty piece
      (when it is the separator) or extends the last piece. */
  function Split(s: string, sep: char): (parts: seq<string>)
    ensures |parts| >= 1
    ensures forall k :: 0 <= k < |parts| ==> sep !in parts[k]
    decreases |s|
  {
    if s == [] then [[]]
    else
      var p := Split(s[..|s| - 1], sep);
      var c := s[|s| - 1];
      if c == sep then p + [[]]
      else p[..|p| - 1] + [p[|p| - 1] + [c]]
  }

  /** Reference definition, not called by the hook: the pieces glued back
      together with `sep` between them (what `strings.Join` does), on a
      non-empty list of pieces. */
  function Join(parts: seq<string>, sep: char): (s: string)
    requires |parts| >= 1
    decreases |parts|
  {
    if |parts| == 1 then parts[0]
    else Join(parts[..|parts| - 1], sep) + [sep] + parts[|parts| - 1]
  }

  /** Joining the pieces of a split gives back the original string. */
  lemma {:induction false} JoinSplit(s: string, sep: char)
    ensures Join(Split(s, sep), sep) == s
    decreases |s|
  {
    if s != [] {
      var init, c := s[..|s| - 1], s[|s| - 1];
      var p := Split(init, sep);
      JoinSplit(init, sep);
      if c == sep {
        assert (p + [[]])[..|p|] == p;
      } else {
        var p' := p[..|p| - 1] + [p[|p| - 1] + [c]];
        if |p| > 1 {
          assert p'[..|p'| - 1] == p[..|p| - 1];
          calc {
            Join(p', sep);
            Join(p[..|p| - 1], sep) + [sep] + (p[|p| - 1] + [c]);
            Join(p, sep) + [c];
          }
        }
      }
      assert init + [c] == s;
    }
  }

  /** Splitting a string with no separator in it yields just that string. */
  lemma {:induction false} SplitNoSeparator(s: string, sep: char)
    requires sep !in s
    ensures Split(s, sep) == [s]
    decreases |s|
  {
    if s != [] {
      SplitNoSeparator(s[..|s| - 1], sep);
      assert s[..|s| - 1] + [s[|s| - 1]] == s;
    }
  }

  /** Splitting after a separator appends the separator-free tail as one new piece. */
  lemma {:induction false} SplitAfterSeparator(x: string, sep: char, tail: string)
    requires sep !in tail
    ensures Split(x + [sep] + tail, sep) == Split(x, sep) + [tail]
    decreases |tail|
  {
    var s := x + [sep] + tail;
    if tail == [] {
      assert s[..|s| - 1] == x;
    } else {
      var tail', c := tail[..|tail| - 1], tail[|tail| - 1];
      SplitAfterSeparator(x, sep, tail');
      assert s[..|s| - 1] == x + [sep] + tail';
      assert tail' + [c] == tail;
    }
  }

  /** Splitting the join of separator-free pieces gives back those pieces. */
  lemma {:induction false} SplitJoin(parts: seq<string>, sep: char)
    requires |parts| >= 1
    requires forall k :: 0 <= k < |parts| ==> sep !in parts[k]
    ensures Split(Join(parts, sep), sep) == parts
    decreases |parts|
  {
    if |parts| == 1 {
      SplitNoSeparator(parts[0], sep);
    } else {
      var init := parts[..|parts| - 1];
      SplitJoin(init, sep);
      SplitAfterSeparator(Join(init, sep), sep, parts[|parts| - 1]);
      assert init + [parts[|parts| - 1]] == parts;
    }
  }

  /** Reference definition, not called by the hook: the position of the last
      `c` in `s`, if any (what `strings.LastIndex` computes). */
  function LastIndex(s: string, c: char): (r: Option<nat>)
    ensures r.None? <==> c !in s
    ensures r.Some? ==> r.value < |s| && s[r.value] == c && c !in s[r.value + 1..]
    decreases |s|
  {
    if s == [] then None
    else if s[|s| - 1] == c then Some(|s| - 1)
    else
      var r := LastIndex(s[..|s| - 1], c);
      assert s == s[..|s| - 1] + [s[|s| - 1]];
      r
  }

  /** The text after the last `sep` in `s`, or all of `s` when it holds no `sep`. */
  function LastSegment(s: string, sep: char): (r: string)
    ensures sep !in r
    ensures |r| <= |s| && r == s[|s| - |r|..]
    ensures |r| < |s| ==> s[|s| - |r| - 1] == sep
    ensures sep !in s ==> r == s
  {
    match LastIndex(s, sep)
    case None => s
    case Some(i) => s[i + 1..]
  }

  /** The last piece of a split is the text after the last separator.  Together
      with `|Split(s, sep)| >= 1` this is what the hook relies on when it takes
      `parts[len(parts)-1]`. */
  lemma {:induction false} SplitLastIsLastSegment(s: string, sep: char)
    ensures Split(s, sep)[|Split(s, sep)| - 1] == LastSegment(s, sep)
    decreases |s|
  {
    if s != [] {
      var init, c := s[..|s| - 1], s[|s| - 1];
      assert s == init + [c];
      if c != sep {
        SplitLastIsLastSegment(init, sep);
        match LastIndex(init, sep)
        case None =>
        case Some(i) =>
          assert s[i + 1..] == init[i + 1..] + [c];
      }
    }
  }

  /** `strings.Contains(s, sub)`: `sub` occurs somewhere in `s`. */
  function Contains(s: string, sub: string): (r: bool)
    ensures r <==> exists i :: 0 <= i <= |s| && sub <= s[i..]
    decreases |s|
  {
    if sub <= s then
      assert sub <= s[0..];
      true
    else if s == [] then false
    else
      var r := Contains(s[1..], sub);
      assert forall i :: 1 <= i <= |s| ==> s[i..] == s[1..][i - 1..];
      if r then
        var j :| 0 <= j <= |s[1..]| && sub <= s[1..][j..];
        assert s[j + 1..] == s[1..][j..];
        r
      else
        r
  }

  /** `strings.TrimPrefix(s, prefix)`: `s` without one leading `prefix`, or `s` itself. */
  function TrimPrefix(s: string, prefix: string): (r: string)
    ensures prefix <= s ==> prefix + r == s
    ensures !(prefix <= s) ==> r == s
  {
    if prefix <= s then s[|prefix|..] else s
  }
}
