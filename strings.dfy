/** The Python `str` built-ins that the repository relies on, modelled on `seq<char>`:
    `find`, slicing with a step of one, `replace` with an empty replacement,
    `sep.join(parts)` and `str(n)` for a natural number. */
module Strings {

  /** `pat` occurs in `s` starting at index `i`. */
  predicate OccursAt(s: string, pat: string, i: int)
  {
    0 <= i && i + |pat| <= |s| && s[i..i + |pat|] == pat
  }

  /** `pat` is a substring of `s` (Python's `pat in s`). */
  predicate Contains(s: string, pat: string)
  {
    exists i :: 0 <= i <= |s| && OccursAt(s, pat, i)
  }

  /** Occurrences in `s[1..]` are the occurrences in `s` shifted by one. */
  lemma OccursAtTail(s: string, pat: string, j: int)
    requires |s| > 0 && 1 <= j
    ensures OccursAt(s, pat, j) <==> OccursAt(s[1..], pat, j - 1)
  {
    if j + |pat| <= |s| {
      assert s[1..][j - 1..j - 1 + |pat|] == s[j..j + |pat|];
    }
  }

  /** Without a match at index 0, `s` contains `pat` exactly when `s[1..]` does. */
  lemma ContainsTail(s: string, pat: string)
    requires |s| > 0 && !OccursAt(s, pat, 0)
    ensures Contains(s, pat) <==> Contains(s[1..], pat)
  {
    if Contains(s, pat) {
      var i :| 0 <= i <= |s| && OccursAt(s, pat, i);
      OccursAtTail(s, pat, i);
      assert OccursAt(s[1..], pat, i - 1);
    }
    if Contains(s[1..], pat) {
      var i :| 0 <= i <= |s| - 1 && OccursAt(s[1..], pat, i);
      OccursAtTail(s, pat, i + 1);
      assert OccursAt(s, pat, i + 1);
    }
  }

  /** A slice splits at any two inner points. */
  lemma SliceSplit3(s: string, a: nat, b: nat, c: nat, d: nat)
    requires a <= b <= c <= d <= |s|
    ensures s[a..d] == s[a..b] + s[b..c] + s[c..d]
  {
  }

  /** A slice of a slice is a slice. */
  lemma SliceOfSlice(s: string, a: nat, b: nat, x: nat, y: nat)
    requires a <= b <= |s| && x <= y <= b - a
    ensures s[a..b][x..y] == s[a + x..a + y]
  {
    forall k | 0 <= k < y - x ensures s[a..b][x..y][k] == s[a + x..a + y][k] {
      assert s[a..b][x..y][k] == s[a..b][x + k] == s[a + x + k];
    }
  }

  /** An occurrence of `a + b` is an occurrence of `a` followed by one of `b`. */
  lemma OccursAtConcat(s: string, a: string, b: string, i: int)
    requires OccursAt(s, a + b, i)
    ensures OccursAt(s, a, i) && OccursAt(s, b, i + |a|)
  {
    assert s[i..i + |a|] == (a + b)[..|a|];
    assert s[i + |a|..i + |a| + |b|] == (a + b)[|a|..];
  }

  /** If `s` contains `a + b`, it contains `a` and it contains `b`. */
  lemma ContainsConcat(s: string, a: string, b: string)
    requires Contains(s, a + b)
    ensures Contains(s, a) && Contains(s, b)
  {
    var i :| 0 <= i <= |s| && OccursAt(s, a + b, i);
    OccursAtConcat(s, a, b, i);
  }

  /** A string without the first character of `pat` does not contain `pat`. */
  lemma MissingFirstCharNotContained(s: string, pat: string)
    requires |pat| > 0 && pat[0] !in s
    ensures !Contains(s, pat)
  {
    forall i | 0 <= i <= |s| ensures !OccursAt(s, pat, i) {
      if i + |pat| <= |s| {
        assert s[i..i + |pat|][0] == s[i];
      }
    }
  }

  /** Python's `s.find(pat)`: the lowest index at which `pat` occurs, or -1
      (`FindSpec` states that the index is the lowest and when -1 comes back). */
  function Find(s: string, pat: string): (r: int)
    ensures -1 <= r <= |s|
    ensures r >= 0 ==> OccursAt(s, pat, r)
  {
    if |pat| > |s| then -1
    else if s[..|pat|] == pat then 0
    else
      var r' := Find(s[1..], pat);
      if r' == -1 then -1
      else
        OccursAtTail(s, pat, r' + 1);
        r' + 1
  }

  /** `find` returns -1 exactly when `pat` does not occur, and otherwise an index with
      no occurrence before it. */
  lemma {:induction false} FindSpec(s: string, pat: string)
    ensures Find(s, pat) == -1 <==> !Contains(s, pat)
    ensures forall j :: 0 <= j < Find(s, pat) ==> !OccursAt(s, pat, j)
    decreases |s|
  {
    if |pat| > |s| {
      assert !Contains(s, pat) by {
        forall i | 0 <= i <= |s| ensures !OccursAt(s, pat, i) { }
      }
    } else if s[..|pat|] == pat {
      assert OccursAt(s, pat, 0);
    } else {
      var r' := Find(s[1..], pat);
      FindSpec(s[1..], pat);
      assert !OccursAt(s, pat, 0);
      ContainsTail(s, pat);
      if r' != -1 {
        forall j | 1 <= j <= r' ensures !OccursAt(s, pat, j) {
          OccursAtTail(s, pat, j);
        }
      }
    }
  }

  /** If `pat` occurs at `i` and nowhere before it, `Find` returns `i`. */
  lemma FindIsFirst(s: string, pat: string, i: int)
    requires OccursAt(s, pat, i)
    requires forall j :: 0 <= j < i ==> !OccursAt(s, pat, j)
    ensures Find(s, pat) == i
  {
    FindSpec(s, pat);
    assert Contains(s, pat);
  }

  /** Python's index normalisation for a slice bound: negative counts from the
      end, and the result is clamped into `[0, n]`. */
  function SliceBound(i: int, n: nat): (b: nat)
    ensures b <= n
    ensures 0 <= i <= n ==> b == i
    ensures i > n ==> b == n
    ensures i < 0 && 0 <= i + n ==> b == i + n
    ensures i + n < 0 ==> b == 0
  {
    if i < 0 then (if i + n < 0 then 0 else i + n)
    else if i > n then n
    else i
  }

  /** Python's `s[i:j]`: never fails, and is empty once the bounds cross. */
  function Slice(s: string, i: int, j: int): (r: string)
    ensures |r| <= |s|
    ensures 0 <= i <= j <= |s| ==> r == s[i..j]
    ensures 0 <= j <= i ==> r == []
  {
    var lo, hi := SliceBound(i, |s|), SliceBound(j, |s|);
    if lo < hi then s[lo..hi] else []
  }

  /** Python's `s.replace(pat, "")`: scanning left to right, every non-overlapping
      occurrence of `pat` is cut out. An empty `pat` leaves `s` as it is. */
  function RemoveAll(s: string, pat: string): string
  {
    if |pat| == 0 || |s| < |pat| then s
    else if s[..|pat|] == pat then RemoveAll(s[|pat|..], pat)
    else [s[0]] + RemoveAll(s[1..], pat)
  }

  /** `replace(pat, "")` never lengthens the text, and shortens it by at least
      `|pat|` when `pat` occurs. */
  lemma {:induction false} RemoveAllLength(s: string, pat: string)
    ensures |RemoveAll(s, pat)| <= |s|
    ensures Contains(s, pat) ==> |RemoveAll(s, pat)| <= |s| - |pat|
    decreases |s|
  {
    if |pat| == 0 {
    } else if |s| < |pat| {
      assert !Contains(s, pat) by {
        forall i | 0 <= i <= |s| ensures !OccursAt(s, pat, i) { }
      }
    } else if s[..|pat|] == pat {
      RemoveAllLength(s[|pat|..], pat);
    } else {
      assert !OccursAt(s, pat, 0);
      ContainsTail(s, pat);
      RemoveAllLength(s[1..], pat);
    }
  }

  /** `replace(pat, "")` leaves a text without `pat` unchanged. */
  lemma {:induction false} RemoveAllAbsent(s: string, pat: string)
    requires !Contains(s, pat)
    ensures RemoveAll(s, pat) == s
    decreases |s|
  {
    if |pat| > 0 && |s| >= |pat| {
      assert !OccursAt(s, pat, 0);
      ContainsTail(s, pat);
      RemoveAllAbsent(s[1..], pat);
    }
  }

  /** Python's `sep.join(parts)`. */
  function Join(sep: string, parts: seq<string>): (r: string)
    ensures |parts| == 0 ==> r == ""
    ensures |parts| == 1 ==> r == parts[0]
    decreases |parts|
  {
    if |parts| == 0 then ""
    else if |parts| == 1 then parts[0]
    else parts[0] + sep + Join(sep, parts[1..])
  }

  /** Sum of the lengths of `parts`. */
  function TotalLength(parts: seq<string>): nat
  {
    if |parts| == 0 then 0 else |parts[0]| + TotalLength(parts[1..])
  }

  /** Joining k >= 1 parts inserts exactly k - 1 separators. */
  lemma {:induction false} JoinLength(sep: string, parts: seq<string>)
    requires |parts| >= 1
    ensures |Join(sep, parts)| == TotalLength(parts) + (|parts| - 1) * |sep|
    decreases |parts|
  {
    if |parts| > 1 {
      JoinLength(sep, parts[1..]);
    }
  }

  /** Where part `j` starts in `Join(sep, parts)`. */
  function PartOffset(sep: string, parts: seq<string>, j: nat): nat
    requires j <= |parts|
  {
    TotalLength(parts[..j]) + j * |sep|
  }

  /** A slice of `a + t` lying past `a` is a slice of `t`. */
  lemma SliceOfConcat(a: string, t: string, x: nat, y: nat)
    requires x <= y <= |t|
    ensures (a + t)[|a| + x..|a| + y] == t[x..y]
  {
  }

  /** The offset of part `j` is that of part `j - 1` of the tail, shifted past the
      first part and one separator. */
  lemma PartOffsetStep(sep: string, parts: seq<string>, j: nat)
    requires 1 <= j <= |parts|
    ensures PartOffset(sep, parts, j) == |parts[0]| + |sep| + PartOffset(sep, parts[1..], j - 1)
  {
    assert parts[..j][1..] == parts[1..][..j - 1];
  }

  /** In `Join(sep, parts)` every part appears, in order, at its offset. */
  lemma {:induction false} JoinPartAt(sep: string, parts: seq<string>, j: nat)
    requires j < |parts|
    ensures var off, r := PartOffset(sep, parts, j), Join(sep, parts);
            off + |parts[j]| <= |r| && r[off..off + |parts[j]|] == parts[j]
    decreases |parts|
  {
    assert parts[..0] == [];
    if |parts| > 1 {
      var head, tail := parts[0] + sep, Join(sep, parts[1..]);
      JoinStep(sep, parts);
      if j > 0 {
        JoinPartAt(sep, parts[1..], j - 1);
        PartOffsetStep(sep, parts, j);
        var o := PartOffset(sep, parts[1..], j - 1);
        assert parts[1..][j - 1] == parts[j];
        SliceOfConcat(head, tail, o, o + |parts[j]|);
      }
    }
  }

  /** In `Join(sep, parts)` a copy of `sep` follows every part but the last. */
  lemma {:induction false} JoinSeparatorAfter(sep: string, parts: seq<string>, j: nat)
    requires j + 1 < |parts|
    ensures var end, r := PartOffset(sep, parts, j) + |parts[j]|, Join(sep, parts);
            end + |sep| <= |r| && r[end..end + |sep|] == sep
    decreases |parts|
  {
    assert parts[..0] == [];
    var head, tail := parts[0] + sep, Join(sep, parts[1..]);
    JoinStep(sep, parts);
    if j > 0 {
      JoinSeparatorAfter(sep, parts[1..], j - 1);
      PartOffsetStep(sep, parts, j);
      var o := PartOffset(sep, parts[1..], j - 1);
      assert parts[1..][j - 1] == parts[j];
      SliceOfConcat(head, tail, o + |parts[j]|, o + |parts[j]| + |sep|);
    }
  }

  /** Reference definition of the pieces that `replace` keeps: the text before the
      first occurrence of `pat`, then, recursively, the pieces of what follows it
      (Python's `s.split(pat)`). */
  function SplitOn(s: string, pat: string): (pieces: seq<string>)
    requires |pat| > 0
    ensures |pieces| >= 1
    decreases |s|
  {
    var i := Find(s, pat);
    if i == -1 then [s] else [s[..i]] + SplitOn(s[i + |pat|..], pat)
  }

  /** A slice ending at `e` holds no occurrence of `pat` when `s` has none before `e`. */
  lemma SliceBeforeFirstIsFree(s: string, pat: string, a: nat, e: nat)
    requires |pat| > 0 && a <= e <= |s|
    requires forall j :: 0 <= j < e ==> !OccursAt(s, pat, j)
    ensures !Contains(s[a..e], pat)
  {
    forall j | 0 <= j <= e - a ensures !OccursAt(s[a..e], pat, j) {
      if j + |pat| <= e - a {
        SliceOfSlice(s, a, e, j, j + |pat|);
        assert !OccursAt(s, pat, a + j);
      }
    }
  }

  /** The text before the first occurrence of `pat` holds no occurrence of it. */
  lemma BeforeFindIsFree(s: string, pat: string)
    requires |pat| > 0 && Find(s, pat) >= 0
    ensures !Contains(s[..Find(s, pat)], pat)
  {
    FindSpec(s, pat);
    SliceBeforeFirstIsFree(s, pat, 0, Find(s, pat));
    assert s[0..Find(s, pat)] == s[..Find(s, pat)];
  }

  /** One step of `SplitOn`: the text before the first occurrence, then the pieces
      of what follows it. */
  lemma SplitOnStep(s: string, pat: string)
    requires |pat| > 0 && Find(s, pat) >= 0
    ensures SplitOn(s, pat) == [s[..Find(s, pat)]] + SplitOn(s[Find(s, pat) + |pat|..], pat)
  {
  }

  /** One step of `Join` over at least two parts. */
  lemma JoinStep(sep: string, parts: seq<string>)
    requires |parts| >= 2
    ensures Join(sep, parts) == parts[0] + sep + Join(sep, parts[1..])
  {
  }

  /** The pieces of `SplitOn` put back together with `pat` give `s` again. */
  lemma {:induction false} SplitOnRoundTrip(s: string, pat: string)
    requires |pat| > 0
    ensures Join(pat, SplitOn(s, pat)) == s
    decreases |s|
  {
    var i := Find(s, pat);
    if i != -1 {
      var rest := s[i + |pat|..];
      var tail := SplitOn(rest, pat);
      SplitOnRoundTrip(rest, pat);
      SplitOnStep(s, pat);
      var pieces := [s[..i]] + tail;
      assert pieces[0] == s[..i] && pieces[1..] == tail;
      JoinStep(pat, pieces);
      assert s[i..i + |pat|] == pat;
      SliceSplit3(s, 0, i, i + |pat|, |s|);
      assert s[0..|s|] == s && s[0..i] == s[..i] && s[i + |pat|..|s|] == rest;
    }
  }

  /** No piece of `SplitOn(s, pat)` contains `pat`. */
  lemma {:induction false} SplitOnPiecesFree(s: string, pat: string, k: nat)
    requires |pat| > 0 && k < |SplitOn(s, pat)|
    ensures !Contains(SplitOn(s, pat)[k], pat)
    decreases |s|
  {
    var i := Find(s, pat);
    FindSpec(s, pat);
    if i == -1 {
      assert SplitOn(s, pat) == [s];
    } else {
      var rest := s[i + |pat|..];
      assert SplitOn(s, pat) == [s[..i]] + SplitOn(rest, pat);
      if k == 0 {
        BeforeFindIsFree(s, pat);
      } else {
        SplitOnPiecesFree(rest, pat, k - 1);
        assert SplitOn(s, pat)[k] == SplitOn(rest, pat)[k - 1];
      }
    }
  }

  /** One step of `RemoveAll` past a character that starts no occurrence. */
  lemma RemoveAllStep(s: string, pat: string)
    requires |pat| > 0 && |s| >= |pat| && !OccursAt(s, pat, 0)
    ensures RemoveAll(s, pat) == [s[0]] + RemoveAll(s[1..], pat)
  {
    assert s[..|pat|] != pat;
  }

  /** Putting the first character back in front of a split tail. */
  lemma ConsSplit(s: string, k: nat, r: string)
    requires 0 < |s| && k < |s|
    ensures [s[0]] + (s[1..][..k] + r) == s[..k + 1] + r
  {
    assert [s[0]] + s[1..][..k] == s[..k + 1];
  }

  /** Cutting out occurrences leaves a prefix that holds none untouched. */
  lemma {:induction false} RemoveAllSkipsPrefix(s: string, pat: string, i: nat)
    requires |pat| > 0 && i <= |s|
    requires forall j :: 0 <= j < i ==> !OccursAt(s, pat, j)
    ensures RemoveAll(s, pat) == s[..i] + RemoveAll(s[i..], pat)
    decreases i
  {
    if i > 0 {
      if |s| < |pat| {
        assert RemoveAll(s, pat) == s && RemoveAll(s[i..], pat) == s[i..];
        assert s == s[..i] + s[i..];
      } else {
        RemoveAllStep(s, pat);
        var t := s[1..];
        forall j | 0 <= j < i - 1 ensures !OccursAt(t, pat, j) {
          OccursAtTail(s, pat, j + 1);
        }
        RemoveAllSkipsPrefix(t, pat, i - 1);
        assert t[i - 1..] == s[i..];
        ConsSplit(s, i - 1, RemoveAll(s[i..], pat));
      }
    }
  }

  /** `replace(pat, "")` is exactly the concatenation of the pieces of `SplitOn`:
      every leftmost non-overlapping occurrence is removed, not only the first. */
  lemma {:induction false} RemoveAllIsJoinOfPieces(s: string, pat: string)
    requires |pat| > 0
    ensures RemoveAll(s, pat) == Join("", SplitOn(s, pat))
    decreases |s|
  {
    var i := Find(s, pat);
    FindSpec(s, pat);
    if i == -1 {
      RemoveAllAbsent(s, pat);
    } else {
      var rest := s[i + |pat|..];
      RemoveAllIsJoinOfPieces(rest, pat);
      RemoveAllSkipsPrefix(s, pat, i);
      assert s[i..][..|pat|] == pat;
      assert s[i..][|pat|..] == rest;
      assert RemoveAll(s[i..], pat) == RemoveAll(rest, pat);
      var pieces := SplitOn(s, pat);
      assert pieces[1..] == SplitOn(rest, pat);
      assert Join("", pieces) == s[..i] + "" + Join("", SplitOn(rest, pat));
    }
  }

  /** The decimal digit character for `d`. */
  function DigitChar(d: nat): (c: char)
    requires d < 10
    ensures '0' <= c <= '9'
  {
    ('0' as int + d) as char
  }

  /** Python's `str(n)` for a natural number: its decimal digits, no leading zero. */
  function NatToString(n: nat): (s: string)
    ensures |s| >= 1
    ensures forall k :: 0 <= k < |s| ==> '0' <= s[k] <= '9'
  {
    if n < 10 then [DigitChar(n)] else NatToString(n / 10) + [DigitChar(n % 10)]
  }

  /** The number a string of decimal digits denotes. */
  function DecimalValue(s: string): nat
    requires forall k :: 0 <= k < |s| ==> '0' <= s[k] <= '9'
  {
    if |s| == 0 then 0
    else 10 * DecimalValue(s[..|s| - 1]) + (s[|s| - 1] as int - '0' as int)
  }

  /** Reading back the decimal text of `n` gives `n`. */
  lemma {:induction false} NatToStringRoundTrip(n: nat)
    ensures DecimalValue(NatToString(n)) == n
  {
    var s := NatToString(n);
    if n >= 10 {
      NatToStringRoundTrip(n / 10);
      assert s[..|s| - 1] == NatToString(n / 10);
    }
  }

  /** Distinct numbers have distinct decimal texts. */
  lemma NatToStringInjective(a: nat, b: nat)
    requires NatToString(a) == NatToString(b)
    ensures a == b
  {
    NatToStringRoundTrip(a);
    NatToStringRoundTrip(b);
  }
}
