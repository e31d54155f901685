/** The string primitives of the JavaScript runtime that the menu logic calls:
    `split`, `join`, `trim`, `includes` and `replace` with a one-character
    pattern. Characters are Unicode scalar values; the model does not distinguish
    them from JavaScript's UTF-16 code units. */
module Text {

  /** `s.split(sep)` for a one-character separator: the pieces between
      separators, always at least one (`"".split(",")` is `[""]`). */
  function Split(s: string, sep: char): (r: seq<string>)
    ensures |r| > 0
    ensures forall i :: 0 <= i < |r| ==> sep !in r[i]
    decreases |s|
  {
    if |s| == 0 then [""]
    else
      var rest := Split(s[1..], sep);
      if s[0] == sep then [""] + rest
      else [[s[0]] + rest[0]] + rest[1..]
  }

  /** `parts.join(sep)`: the parts with one separator between neighbours. */
  function Join(parts: seq<string>, sep: char): (r: string)
    ensures |parts| == 1 ==> r == parts[0]
  {
    if |parts| == 0 then ""
    else if |parts| == 1 then parts[0]
    else parts[0] + [sep] + Join(parts[1..], sep)
  }

  /** Joining the pieces of a split gives back the original string. */
  lemma {:induction false} JoinSplit(s: string, sep: char)
    ensures Join(Split(s, sep), sep) == s
    decreases |s|
  {
    if |s| > 0 {
      var rest := Split(s[1..], sep);
      JoinSplit(s[1..], sep);
      if s[0] == sep {
        assert Split(s, sep) == [""] + rest;
        assert ([""] + rest)[1..] == rest;
        assert s == [sep] + s[1..];
      } else {
        var r := Split(s, sep);
        assert r == [[s[0]] + rest[0]] + rest[1..];
        if |rest| == 1 {
          assert s == [s[0]] + s[1..];
        } else {
          assert r[1..] == rest[1..];
          assert Join(rest, sep) == rest[0] + [sep] + Join(rest[1..], sep);
          assert s == [s[0]] + s[1..];
        }
      }
    }
  }

  /** Splitting a piece free of the separator glued to the front of `t`
      only extends the first piece of `t`'s split. */
  lemma {:induction false} SplitPrefix(p: string, t: string, sep: char)
    requires sep !in p
    ensures Split(p + t, sep) == [p + Split(t, sep)[0]] + Split(t, sep)[1..]
    decreases |p|
  {
    if |p| > 0 {
      assert (p + t)[1..] == p[1..] + t;
      assert p[0] in p;
      SplitPrefix(p[1..], t, sep);
      assert [p[0]] + (p[1..] + Split(t, sep)[0]) == p + Split(t, sep)[0];
    } else {
      assert p + t == t;
      assert p + Split(t, sep)[0] == Split(t, sep)[0];
    }
  }

  /** Splitting a join gives back the parts, provided no part contains the
      separator (otherwise a part would be cut in two). */
  lemma {:induction false} SplitJoin(parts: seq<string>, sep: char)
    requires |parts| > 0
    requires forall i :: 0 <= i < |parts| ==> sep !in parts[i]
    ensures Split(Join(parts, sep), sep) == parts
  {
    if |parts| == 1 {
      SplitPrefix(parts[0], "", sep);
      assert parts[0] + "" == parts[0];
    } else {
      var tail := Join(parts[1..], sep);
      SplitJoin(parts[1..], sep);
      assert parts[0] + [sep] + tail == parts[0] + ([sep] + tail);
      SplitPrefix(parts[0], [sep] + tail, sep);
      assert ([sep] + tail)[1..] == tail;
      assert Split([sep] + tail, sep) == [""] + parts[1..];
      assert parts[0] + "" == parts[0];
    }
  }

  /** The characters `String.prototype.trim` removes: ECMAScript WhiteSpace
      (tab, vertical tab, form feed, space, no-break space, byte order mark
      and every Unicode space separator) and LineTerminator. */
  predicate IsWhiteSpace(c: char) {
    || c == '\U{0009}' || c == '\U{000B}' || c == '\U{000C}' || c == '\U{0020}'
    || c == '\U{00A0}' || c == '\U{FEFF}'
    || c == '\U{000A}' || c == '\U{000D}' || c == '\U{2028}' || c == '\U{2029}'
    || c == '\U{1680}' || ('\U{2000}' <= c <= '\U{200A}')
    || c == '\U{202F}' || c == '\U{205F}' || c == '\U{3000}'
  }

  /** `s` without its leading white space. */
  function TrimStart(s: string): string {
    if |s| > 0 && IsWhiteSpace(s[0]) then TrimStart(s[1..]) else s
  }

  /** `s` without its trailing white space. */
  function TrimEnd(s: string): string {
    if |s| > 0 && IsWhiteSpace(s[|s| - 1]) then TrimEnd(s[..|s| - 1]) else s
  }

  /** `s.trim()`. */
  function Trim(s: string): string {
    TrimEnd(TrimStart(s))
  }

  /** Trimming the start removes a run of white space and stops at the first
      character that is not white space. */
  lemma {:induction false} TrimStartSpec(s: string)
    ensures var r := TrimStart(s);
      && |r| <= |s| && r == s[|s| - |r|..]
      && (|r| > 0 ==> !IsWhiteSpace(r[0]))
      && forall i :: 0 <= i < |s| - |r| ==> IsWhiteSpace(s[i])
  {
    if |s| > 0 && IsWhiteSpace(s[0]) {
      TrimStartSpec(s[1..]);
      assert forall i :: 1 <= i < |s| ==> s[i] == s[1..][i - 1];
    }
  }

  /** Trimming the end removes a run of white space and stops at the last
      character that is not white space. */
  lemma {:induction false} TrimEndSpec(s: string)
    ensures var r := TrimEnd(s);
      && |r| <= |s| && r == s[..|r|]
      && (|r| > 0 ==> !IsWhiteSpace(r[|r| - 1]))
      && forall i :: |r| <= i < |s| ==> IsWhiteSpace(s[i])
  {
    if |s| > 0 && IsWhiteSpace(s[|s| - 1]) {
      TrimEndSpec(s[..|s| - 1]);
    }
  }

  /** `s.trim()` is what is left of `s` once the white space at both of its
      ends is cut away: a block of `s` preceded and followed only by white
      space, with no white space at either of its own ends. A string already
      free of white space at its ends is kept whole. */
  lemma TrimSpec(s: string)
    ensures Includes(s, Trim(s))
    ensures exists i, j :: 0 <= i <= j <= |s| && Trim(s) == s[i..j] && TrimmedAround(s, i, j)
    ensures |Trim(s)| > 0 ==> !IsWhiteSpace(Trim(s)[0]) && !IsWhiteSpace(Trim(s)[|Trim(s)| - 1])
    ensures (|s| == 0 || (!IsWhiteSpace(s[0]) && !IsWhiteSpace(s[|s| - 1]))) ==> Trim(s) == s
  {
    var t := TrimStart(s);
    var r := TrimEnd(t);
    TrimStartSpec(s);
    TrimEndSpec(t);
    var k := |s| - |t|;
    SliceOfSlice(s, k, |r|);
    IncludesSlice(s, k, |r|);
    if |r| > 0 {
      assert r[0] == t[0];
    }
    assert forall m :: k + |r| <= m < |s| ==> s[m] == t[m - k];
    assert TrimmedAround(s, k, k + |r|);
    TrimClean(s);
  }

  /** Everything of `s` before `i` and from `j` on is white space. */
  predicate TrimmedAround(s: string, i: nat, j: nat)
    requires i <= j <= |s|
  {
    && (forall m :: 0 <= m < i ==> IsWhiteSpace(s[m]))
    && (forall m :: j <= m < |s| ==> IsWhiteSpace(s[m]))
  }

  lemma SliceOfSlice<T>(s: seq<T>, k: nat, n: nat)
    requires k + n <= |s|
    ensures s[k..][..n] == s[k..k + n]
  {
  }

  /** A string with no white space at its ends passes both trims unchanged. */
  lemma TrimClean(s: string)
    ensures (|s| == 0 || (!IsWhiteSpace(s[0]) && !IsWhiteSpace(s[|s| - 1]))) ==> Trim(s) == s
  {
    if |s| > 0 && !IsWhiteSpace(s[0]) && !IsWhiteSpace(s[|s| - 1]) {
      assert TrimStart(s) == s;
      assert TrimEnd(s) == s;
    }
  }

  /** `s.replace(c, "")` with a one-character string pattern: only the FIRST
      occurrence is removed. */
  function RemoveFirst(s: string, c: char): string {
    if |s| == 0 then s
    else if s[0] == c then s[1..]
    else [s[0]] + RemoveFirst(s[1..], c)
  }

  /** Without `c` the string is kept; otherwise the first `c` is cut out and
      everything before and after it stays in place. */
  lemma {:induction false} RemoveFirstSpec(s: string, c: char)
    ensures c !in s ==> RemoveFirst(s, c) == s
    ensures c in s ==>
      exists i :: 0 <= i < |s| && s[i] == c && c !in s[..i] && RemoveFirst(s, c) == s[..i] + s[i + 1..]
    ensures c in s ==> |RemoveFirst(s, c)| == |s| - 1 && multiset(RemoveFirst(s, c)) + multiset{c} == multiset(s)
    ensures |s| > 0 && s[0] != c ==> |RemoveFirst(s, c)| > 0 && RemoveFirst(s, c)[0] == s[0]
  {
    RemoveFirstCounts(s, c);
    if c in s {
      RemoveFirstCut(s, c);
      var i: nat :| CutAt(s, c, i);
      assert 0 <= i < |s| && s[i] == c && c !in s[..i] && RemoveFirst(s, c) == s[..i] + s[i + 1..];
    }
  }

  lemma {:induction false} RemoveFirstCounts(s: string, c: char)
    ensures c !in s ==> RemoveFirst(s, c) == s
    ensures c in s ==> |RemoveFirst(s, c)| == |s| - 1 && multiset(RemoveFirst(s, c)) + multiset{c} == multiset(s)
    ensures |s| > 0 && s[0] != c ==> |RemoveFirst(s, c)| > 0 && RemoveFirst(s, c)[0] == s[0]
  {
    if |s| > 0 {
      assert s == [s[0]] + s[1..];
      if s[0] != c {
        RemoveFirstCounts(s[1..], c);
        assert c in s ==> c in s[1..];
      }
    }
  }

  /** The position of the first `c`, and what remains around it. */
  lemma {:induction false} RemoveFirstCut(s: string, c: char)
    requires c in s
    ensures exists i: nat :: CutAt(s, c, i)
  {
    if s[0] == c {
      assert s[..0] + s[1..] == s[1..];
      assert CutAt(s, c, 0);
    } else {
      assert s == [s[0]] + s[1..];
      assert c in s[1..];
      RemoveFirstCut(s[1..], c);
      var i: nat :| CutAt(s[1..], c, i);
      CutAfterHead(s, c, i);
    }
  }

  /** A cut in the tail, behind a head that is not `c`, is a cut one
      position further on. */
  lemma CutAfterHead(s: string, c: char, i: nat)
    requires |s| > 0 && s[0] != c
    requires CutAt(s[1..], c, i)
    ensures CutAt(s, c, i + 1)
  {
    var tail := s[1..];
    assert s[..i + 1] == [s[0]] + tail[..i];
    assert s[i + 2..] == tail[i + 1..];
    assert RemoveFirst(s, c) == [s[0]] + RemoveFirst(tail, c);
  }

  /** `RemoveFirst(s, c)` cuts out position `i`, the first `c` of `s`. */
  predicate CutAt(s: string, c: char, i: nat) {
    i < |s| && s[i] == c && c !in s[..i] && RemoveFirst(s, c) == s[..i] + s[i + 1..]
  }

  /** `s.includes(t)`: `t` occurs in `s` as a contiguous block. */
  predicate Includes(s: string, t: string)
    decreases |s|
  {
    t <= s || (|s| > 0 && Includes(s[1..], t))
  }

  /** Every block cut out of `s` occurs in `s`. */
  lemma {:induction false} IncludesSlice(s: string, k: nat, n: nat)
    requires k + n <= |s|
    ensures Includes(s, s[k..k + n])
    decreases k
  {
    if k > 0 {
      IncludesSlice(s[1..], k - 1, n);
      assert s[1..][k - 1..k - 1 + n] == s[k..k + n];
    }
  }
}
