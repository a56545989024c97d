/** Python's `str.split(sep)` with an explicit one-character separator, and the
    literal replace-all that `re.sub` performs when its pattern has no regex
    metacharacters. */
module Strings {

  /** `sep.join(pieces)` */
  function Join(pieces: seq<string>, sep: char): string
  {
    if |pieces| == 0 then ""
    else if |pieces| == 1 then pieces[0]
    else pieces[0] + [sep] + Join(pieces[1..], sep)
  }

  /** `s.split(sep)`: every separator ends a piece, empty pieces are kept. */
  function Split(s: string, sep: char): (pieces: seq<string>)
    ensures |pieces| >= 1
  {
    if |s| == 0 then [""] else Prepend(s[0], Split(s[1..], sep), sep)
  }

  /** Puts one more character in front of the pieces of the rest: a separator
      opens a new empty piece, any other character extends the first piece. */
  function Prepend(c: char, rest: seq<string>, sep: char): (pieces: seq<string>)
    requires |rest| >= 1
    ensures |pieces| >= 1
  {
    if c == sep then [""] + rest else [[c] + rest[0]] + rest[1..]
  }

  /** Pieces added after the first one are untouched by `Prepend`. */
  lemma PrependAppend(c: char, xs: seq<string>, ys: seq<string>, sep: char)
    requires |xs| >= 1
    ensures Prepend(c, xs + ys, sep) == Prepend(c, xs, sep) + ys
  {
    if c != sep {
      assert (xs + ys)[0] == xs[0];
      assert (xs + ys)[1..] == xs[1..] + ys;
    }
  }

  /** No piece contains the separator. */
  lemma {:induction false} SplitPiecesSeparatorFree(s: string, sep: char)
    ensures forall i :: 0 <= i < |Split(s, sep)| ==> sep !in Split(s, sep)[i]
    decreases |s|
  {
    if |s| > 0 {
      var rest := Split(s[1..], sep);
      SplitPiecesSeparatorFree(s[1..], sep);
      var pieces := Split(s, sep);
      assert pieces == Prepend(s[0], rest, sep);
      if s[0] == sep {
        assert forall i :: 1 <= i < |pieces| ==> pieces[i] == rest[i - 1];
      } else {
        assert forall i :: 1 <= i < |pieces| ==> pieces[i] == rest[i];
        assert pieces[0] == [s[0]] + rest[0];
      }
    }
  }

  /** Joining the pieces with the separator gives back the string. */
  lemma {:induction false} JoinSplit(s: string, sep: char)
    ensures Join(Split(s, sep), sep) == s
    decreases |s|
  {
    if |s| > 0 {
      var rest := Split(s[1..], sep);
      JoinSplit(s[1..], sep);
      if s[0] == sep {
        assert Split(s, sep) == [""] + rest;
        assert ([""] + rest)[1..] == rest;
      } else {
        var pieces := [[s[0]] + rest[0]] + rest[1..];
        assert Split(s, sep) == pieces;
        if |rest| == 1 {
          assert Join(pieces, sep) == [s[0]] + rest[0];
        } else {
          assert pieces[1..] == rest[1..];
          assert Join(rest, sep) == rest[0] + [sep] + Join(rest[1..], sep);
          assert Join(pieces, sep) == ([s[0]] + rest[0]) + [sep] + Join(rest[1..], sep);
        }
      }
      assert s == [s[0]] + s[1..];
    }
  }

  /** Splitting undoes joining: a separator-free decomposition is the only one
      `Split` can return. */
  lemma {:induction false} SplitJoin(pieces: seq<string>, sep: char)
    requires |pieces| >= 1
    requires forall i :: 0 <= i < |pieces| ==> sep !in pieces[i]
    ensures Split(Join(pieces, sep), sep) == pieces
  {
    if |pieces| == 1 {
      NoSeparatorOnePiece(pieces[0], sep);
    } else {
      var tail := pieces[1..];
      SplitJoin(tail, sep);
      SplitAround(pieces[0], Join(tail, sep), sep);
      NoSeparatorOnePiece(pieces[0], sep);
      assert pieces == [pieces[0]] + tail;
    }
  }

  /** A string without the separator splits into itself alone. */
  lemma {:induction false} NoSeparatorOnePiece(s: string, sep: char)
    requires sep !in s
    ensures Split(s, sep) == [s]
  {
    if |s| > 0 {
      assert sep !in s[1..] by {
        forall i | 0 <= i < |s[1..]| ensures s[1..][i] != sep {
          assert s[1..][i] == s[i + 1];
        }
      }
      NoSeparatorOnePiece(s[1..], sep);
      assert [s[0]] + s[1..] == s;
    }
  }

  /** How `Split` treats the first character. */
  lemma SplitCons(c: char, t: string, sep: char)
    ensures Split([c] + t, sep) == Prepend(c, Split(t, sep), sep)
  {
    assert ([c] + t)[0] == c && ([c] + t)[1..] == t;
  }

  /** Splitting at one separator splits both sides independently. */
  lemma {:induction false} SplitAround(a: string, b: string, sep: char)
    ensures Split(a + [sep] + b, sep) == Split(a, sep) + Split(b, sep)
    decreases |a|
  {
    if |a| == 0 {
      assert a + [sep] + b == [sep] + b;
      SplitCons(sep, b, sep);
    } else {
      var t := a[1..] + [sep] + b;
      var ra := Split(a[1..], sep);
      var rb := Split(b, sep);
      assert a + [sep] + b == [a[0]] + t;
      assert Split(t, sep) == ra + rb by { SplitAround(a[1..], b, sep); }
      assert Split(a, sep) == Prepend(a[0], ra, sep) by {
        assert a == [a[0]] + a[1..];
        SplitCons(a[0], a[1..], sep);
      }
      calc {
        Split(a + [sep] + b, sep);
        Split([a[0]] + t, sep);
        { SplitCons(a[0], t, sep); }
        Prepend(a[0], Split(t, sep), sep);
        Prepend(a[0], ra + rb, sep);
        { PrependAppend(a[0], ra, rb, sep); }
        Prepend(a[0], ra, sep) + rb;
        Split(a, sep) + rb;
      }
    }
  }

  /** The pattern `p` occurs in `s` starting at index `i`. */
  predicate OccursAt(s: string, p: string, i: nat)
  {
    i + |p| <= |s| && s[i..i + |p|] == p
  }

  /** `re.sub(p, r, s)` for a pattern `p` that matches only itself: scan left
      to right, replace each occurrence and resume after it, so that the
      replaced occurrences do not overlap. */
  function ReplaceAll(s: string, p: string, r: string): (out: string)
    requires |p| > 0
    ensures |p| == |r| ==> |out| == |s|
    ensures p == r ==> out == s
    decreases |s|
  {
    if |s| == 0 then ""
    else if OccursAt(s, p, 0) then r + ReplaceAll(s[|p|..], p, r)
    else [s[0]] + ReplaceAll(s[1..], p, r)
  }

  lemma OccursShift(s: string, p: string, i: nat)
    requires |s| > 0
    ensures OccursAt(s, p, i + 1) <==> OccursAt(s[1..], p, i)
  {
    if i + 1 + |p| <= |s| {
      assert s[1..][i..i + |p|] == s[i + 1..i + 1 + |p|];
    }
  }

  /** Without an occurrence, nothing is rewritten. */
  lemma {:induction false} ReplaceAllAbsent(s: string, p: string, r: string)
    requires |p| > 0
    requires forall i: nat :: i < |s| ==> !OccursAt(s, p, i)
    ensures ReplaceAll(s, p, r) == s
  {
    if |s| > 0 {
      assert !OccursAt(s, p, 0);
      forall i: nat | i < |s[1..]| ensures !OccursAt(s[1..], p, i) {
        OccursShift(s, p, i);
      }
      ReplaceAllAbsent(s[1..], p, r);
      assert [s[0]] + s[1..] == s;
    }
  }

  /** Everything before the first occurrence is copied, the first occurrence is
      replaced, and scanning resumes right after it. */
  lemma {:induction false} ReplaceAllFirst(s: string, p: string, r: string, k: nat)
    requires |p| > 0
    requires OccursAt(s, p, k)
    requires forall i: nat :: i < k ==> !OccursAt(s, p, i)
    ensures ReplaceAll(s, p, r) == s[..k] + r + ReplaceAll(s[k + |p|..], p, r)
  {
    if k > 0 {
      var t := s[1..];
      var tail := ReplaceAll(s[k + |p|..], p, r);
      assert ReplaceAll(s, p, r) == [s[0]] + ReplaceAll(t, p, r) by {
        ReplaceAllSkip(s, p, r);
      }
      assert ReplaceAll(t, p, r) == t[..k - 1] + r + tail by {
        OccursShift(s, p, k - 1);
        NoEarlierShift(s, p, k);
        ReplaceAllFirst(t, p, r, k - 1);
        assert t[k - 1 + |p|..] == s[k + |p|..];
      }
      assert [s[0]] + t[..k - 1] == s[..k];
      assert [s[0]] + (t[..k - 1] + r + tail) == ([s[0]] + t[..k - 1]) + r + tail;
    }
  }

  /** A first character that starts no occurrence is copied. */
  lemma ReplaceAllSkip(s: string, p: string, r: string)
    requires |p| > 0 && |s| > 0
    requires !OccursAt(s, p, 0)
    ensures ReplaceAll(s, p, r) == [s[0]] + ReplaceAll(s[1..], p, r)
  {
  }

  /** Dropping the first character keeps "no occurrence before `k`", one
      position earlier. */
  lemma NoEarlierShift(s: string, p: string, k: nat)
    requires |s| > 0 && k > 0
    requires forall i: nat :: i < k ==> !OccursAt(s, p, i)
    ensures forall i: nat :: i < k - 1 ==> !OccursAt(s[1..], p, i)
  {
    forall i: nat | i < k - 1 ensures !OccursAt(s[1..], p, i) {
      OccursShift(s, p, i);
    }
  }

  /** An occurrence in a suffix is an occurrence in the whole string. */
  lemma OccursInSuffix(s: string, p: string, off: nat, i: nat)
    requires off <= |s|
    ensures OccursAt(s[off..], p, i) ==> OccursAt(s, p, off + i)
  {
    if OccursAt(s[off..], p, i) {
      assert s[off + i..off + i + |p|] == s[off..][i..i + |p|];
    }
  }

  /** `p` occurs in `s` at `k` and nowhere else. */
  predicate OccursOnlyAt(s: string, p: string, k: nat)
  {
    OccursAt(s, p, k) && forall i: nat :: i < |s| && i != k ==> !OccursAt(s, p, i)
  }

  /** With a single occurrence the result is `prefix + r + suffix`. */
  lemma ReplaceAllSingle(s: string, p: string, r: string, k: nat)
    requires |p| > 0
    requires OccursOnlyAt(s, p, k)
    ensures ReplaceAll(s, p, r) == s[..k] + r + s[k + |p|..]
  {
    ReplaceAllFirst(s, p, r, k);
    var rest := s[k + |p|..];
    forall i: nat | i < |rest| ensures !OccursAt(rest, p, i) {
      OccursInSuffix(s, p, k + |p|, i);
    }
    ReplaceAllAbsent(rest, p, r);
  }
}
