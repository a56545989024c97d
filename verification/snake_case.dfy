/** `to_snake_case`: turns an artist or album name into a lower-case ASCII
    token whose words are joined by single underscores. */
module SnakeCase {
  import opened Ascii

  /** Characters the sanitiser keeps (after lowering capitals). */
  predicate IsKept(c: char) { IsUpper(c) || IsLower(c) || IsDigit(c) }

  /** Every other character, `_` and non-ASCII included, separates words. */
  predicate IsSeparator(c: char) { !IsKept(c) }

  /** How the loop writes a kept character: capitals lowered, the rest as is. */
  function Normalize(c: char): (r: char)
    ensures IsKept(c) ==> IsLower(r) || IsDigit(r)
  {
    if IsUpper(c) then ToLower(c) else c
  }

  /** The characters a sanitised name is made of. */
  predicate IsSnakeChar(c: char) { IsLower(c) || IsDigit(c) || c == '_' }

  /** What the loop's buffer looks like at every iteration: snake characters,
      no leading `_`, never two `_` in a row (a trailing `_` is allowed). */
  predicate IsBuffer(b: string)
  {
    && (forall i :: 0 <= i < |b| ==> IsSnakeChar(b[i]))
    && (|b| > 0 ==> b[0] != '_')
    && (forall i :: 0 <= i < |b| - 1 ==> !(b[i] == '_' && b[i + 1] == '_'))
  }

  /** A finished snake-case token: a buffer that also does not end in `_`. */
  predicate IsSnake(s: string)
  {
    IsBuffer(s) && (|s| > 0 ==> s[|s| - 1] != '_')
  }

  /** One iteration of the loop over the input's characters. */
  function Step(buf: string, c: char): string
  {
    if IsUpper(c) then buf + [ToLower(c)]
    else if IsLower(c) || IsDigit(c) then buf + [c]
    else if |buf| > 0 && buf[|buf| - 1] != '_' then buf + "_"
    else buf
  }

  /** The loop: feed every character of `s`, in order, to `Step`. */
  function Scan(buf: string, s: string): string
    decreases |s|
  {
    if |s| == 0 then buf else Scan(Step(buf, s[0]), s[1..])
  }

  /** `s.rstrip("_")` */
  function RStrip(s: string): (r: string)
    ensures |r| <= |s| && r == s[..|r|]
    ensures |r| > 0 ==> r[|r| - 1] != '_'
    ensures forall i :: |r| <= i < |s| ==> s[i] == '_'
    decreases |s|
  {
    if |s| > 0 && s[|s| - 1] == '_' then RStrip(s[..|s| - 1]) else s
  }

  /** `to_snake_case(s)`. The leading `s.strip()` is left out: whitespace is
      never kept, and `SeparatorRuns` shows such padding changes nothing. */
  function ToSnakeCase(s: string): (r: string)
    ensures IsSnake(r)
    ensures |r| <= |s|
  {
    ScanBuffer("", s);
    BufferStrip(Scan("", s));
    RStrip(Scan("", s))
  }

  /** Words glued by one `_`, an empty side contributing nothing. */
  function Glue(x: string, y: string): string
  {
    if |x| == 0 then y else if |y| == 0 then x else x + "_" + y
  }

  /** The lowered form of a string (meant for strings of kept characters). */
  function Lower(s: string): (r: string)
    ensures |r| == |s|
  {
    if |s| == 0 then "" else [Normalize(s[0])] + Lower(s[1..])
  }

  /** Each character is lowered in place. */
  lemma {:induction false} LowerAt(s: string)
    ensures forall i :: 0 <= i < |s| ==> Lower(s)[i] == Normalize(s[i])
    decreases |s|
  {
    if |s| > 0 {
      LowerAt(s[1..]);
      LowerCons(s);
      var l := Lower(s);
      forall i | 1 <= i < |s| ensures l[i] == Normalize(s[i]) {
        assert l[i] == Lower(s[1..])[i - 1];
        assert s[1..][i - 1] == s[i];
      }
    }
  }

  // ---------------------------------------------------------------------
  // Facts about the loop

  lemma StepBuffer(buf: string, c: char)
    requires IsBuffer(buf)
    ensures IsBuffer(Step(buf, c))
    ensures |Step(buf, c)| <= |buf| + 1
  {
  }

  /** The loop keeps the buffer invariant and adds at most one character per
      input character. */
  lemma {:induction false} ScanBuffer(buf: string, s: string)
    requires IsBuffer(buf)
    ensures IsBuffer(Scan(buf, s))
    ensures |Scan(buf, s)| <= |buf| + |s|
    decreases |s|
  {
    if |s| > 0 {
      StepBuffer(buf, s[0]);
      ScanBuffer(Step(buf, s[0]), s[1..]);
    }
  }

  /** Stripping the trailing underscores of a buffer leaves a snake token. */
  lemma BufferStrip(b: string)
    requires IsBuffer(b)
    ensures IsSnake(RStrip(b))
  {
    var r := RStrip(b);
    assert forall i :: 0 <= i < |r| ==> r[i] == b[i];
  }

  /** Running the loop over `a + b` is running it over `a`, then over `b`. */
  lemma {:induction false} ScanAppend(buf: string, a: string, b: string)
    ensures Scan(buf, a + b) == Scan(Scan(buf, a), b)
    decreases |a|
  {
    if |a| == 0 {
      assert a + b == b;
    } else {
      assert (a + b)[0] == a[0] && (a + b)[1..] == a[1..] + b;
      ScanAppend(Step(buf, a[0]), a[1..], b);
    }
  }

  /** The loop only looks at whether the buffer is empty and at its last
      character, so a non-empty buffer can carry any prefix along. */
  lemma {:induction false} ScanShift(p: string, x: string, s: string)
    requires |x| > 0
    ensures Scan(p + x, s) == p + Scan(x, s)
    decreases |s|
  {
    if |s| > 0 {
      assert (p + x)[|p + x| - 1] == x[|x| - 1];
      assert Step(p + x, s[0]) == p + Step(x, s[0]);
      ScanShift(p, Step(x, s[0]), s[1..]);
    }
  }

  /** After a `_` the loop behaves as from an empty buffer. */
  lemma {:induction false} ScanAfterUnderscore(s: string)
    ensures Scan("_", s) == "_" + Scan("", s)
    decreases |s|
  {
    if |s| > 0 {
      var c := s[0];
      if IsKept(c) {
        var n := Normalize(c);
        assert Step("_", c) == "_" + [n] && Step("", c) == [n];
        ScanShift("_", [n], s[1..]);
      } else {
        assert Step("_", c) == "_" && Step("", c) == "";
        ScanAfterUnderscore(s[1..]);
      }
    }
  }

  lemma {:induction false} RStripAppend(x: string, y: string)
    requires |RStrip(y)| > 0
    ensures RStrip(x + y) == x + RStrip(y)
    decreases |y|
  {
    if |y| > 0 && y[|y| - 1] == '_' {
      assert (x + y)[..|x + y| - 1] == x + y[..|y| - 1];
      RStripAppend(x, y[..|y| - 1]);
    } else {
      assert |y| > 0;
      assert (x + y)[|x + y| - 1] == y[|y| - 1];
    }
  }

  /** A buffer strips to nothing only when it is empty. */
  lemma RStripBufferEmpty(b: string)
    requires IsBuffer(b)
    ensures |RStrip(b)| == 0 <==> |b| == 0
  {
    if |b| > 0 {
      assert b[0] != '_';
      assert |RStrip(b)| > 0;
    }
  }

  /** A non-empty buffer with its trailing `_` (if any) replaced by exactly one. */
  lemma BufferWithSeparator(b: string, c: char)
    requires IsBuffer(b) && |b| > 0 && IsSeparator(c)
    ensures |RStrip(b)| > 0
    ensures Step(b, c) == RStrip(b) + "_"
  {
    RStripBufferEmpty(b);
    if b[|b| - 1] == '_' {
      assert |b| >= 2;
      var p := b[..|b| - 1];
      assert p[|p| - 1] == b[|b| - 2] != '_';
      assert RStrip(b) == p;
      assert p + "_" == b;
    }
  }

  // ---------------------------------------------------------------------
  // Properties of to_snake_case

  /** After a non-empty buffer, a separator and then `b` leave the stripped
      buffer, one `_`, and what `b` alone would have produced. */
  lemma ScanAfterSeparator(A: string, c: char, b: string)
    requires IsBuffer(A) && |A| > 0 && IsSeparator(c)
    ensures |RStrip(A)| > 0
    ensures Scan(Step(A, c), b) == RStrip(A) + "_" + Scan("", b)
  {
    var S := RStrip(A);
    var B := Scan("", b);
    BufferWithSeparator(A, c);
    assert Scan(S + "_", b) == S + Scan("_", b) by {
      ScanShift(S, "_", b);
    }
    assert Scan("_", b) == "_" + B by {
      ScanAfterUnderscore(b);
    }
    assert S + ("_" + B) == S + "_" + B;
  }

  /** Stripping a word, one `_` and a buffer glues the word to the stripped buffer. */
  lemma StripGlued(S: string, B: string)
    requires |S| > 0 && S[|S| - 1] != '_'
    requires IsBuffer(B)
    ensures RStrip(S + "_" + B) == Glue(S, RStrip(B))
  {
    RStripBufferEmpty(B);
    if |B| == 0 {
      assert S + "_" + B == S + "_";
      assert (S + "_")[..|S|] == S;
    } else {
      assert S + "_" + B == (S + "_") + B;
      RStripAppend(S + "_", B);
    }
  }

  /** A separator between two parts joins their sanitised forms with exactly
      one `_`, or with nothing when either side has no kept character. */
  lemma SeparatorSplits(a: string, c: char, b: string)
    requires IsSeparator(c)
    ensures ToSnakeCase(a + [c] + b) == Glue(ToSnakeCase(a), ToSnakeCase(b))
  {
    var A := Scan("", a);
    ScanBuffer("", a);
    ScanBuffer("", b);
    ScanAppend("", a + [c], b);
    ScanAppend("", a, [c]);
    assert Scan(A, [c]) == Step(A, c);
    if |A| == 0 {
      assert Step(A, c) == "";
    } else {
      ScanAfterSeparator(A, c, b);
      StripGlued(RStrip(A), Scan("", b));
    }
  }

  /** A name made only of kept characters is simply lowered. */
  lemma KeptOnly(s: string)
    requires forall i :: 0 <= i < |s| ==> IsKept(s[i])
    ensures ToSnakeCase(s) == Lower(s)
  {
    var l := Lower(s);
    assert Scan("", s) == l by {
      ScanKept("", s);
      assert "" + l == l;
    }
    assert RStrip(l) == l by {
      if |l| > 0 {
        LowerAt(s);
        assert l[|l| - 1] == Normalize(s[|s| - 1]);
      }
    }
  }

  lemma {:induction false} ScanKept(buf: string, s: string)
    requires forall i :: 0 <= i < |s| ==> IsKept(s[i])
    ensures Scan(buf, s) == buf + Lower(s)
    decreases |s|
  {
    if |s| > 0 {
      KeptRest(s);
      ScanKept(buf + [Normalize(s[0])], s[1..]);
      ScanKeptCombine(buf, s);
    }
  }

  /** One step of `ScanKept`: from the claim for the rest of the string to the
      claim for the whole. */
  lemma ScanKeptCombine(buf: string, s: string)
    requires |s| > 0 && IsKept(s[0])
    requires Scan(buf + [Normalize(s[0])], s[1..]) == buf + [Normalize(s[0])] + Lower(s[1..])
    ensures Scan(buf, s) == buf + Lower(s)
  {
    ScanKeptStep(buf, s);
    LowerCons(s);
    assert buf + [Normalize(s[0])] + Lower(s[1..]) == buf + ([Normalize(s[0])] + Lower(s[1..]));
  }

  /** A kept first character is appended, normalised, to the buffer. */
  lemma ScanKeptStep(buf: string, s: string)
    requires |s| > 0 && IsKept(s[0])
    ensures Scan(buf, s) == Scan(buf + [Normalize(s[0])], s[1..])
  {
    assert Step(buf, s[0]) == buf + [Normalize(s[0])];
  }

  lemma KeptRest(s: string)
    requires |s| > 0
    requires forall i :: 0 <= i < |s| ==> IsKept(s[i])
    ensures forall i :: 0 <= i < |s| - 1 ==> IsKept(s[1..][i])
  {
    forall i | 0 <= i < |s| - 1 ensures IsKept(s[1..][i]) {
      assert s[1..][i] == s[i + 1];
    }
  }

  lemma LowerCons(s: string)
    requires |s| > 0
    ensures [Normalize(s[0])] + Lower(s[1..]) == Lower(s)
  {
  }

  /** Separators before or after the name (the whitespace `strip()` removes,
      among others) do not change the result. */
  lemma SeparatorPadding(c: char, s: string)
    requires IsSeparator(c)
    ensures ToSnakeCase([c] + s) == ToSnakeCase(s)
    ensures ToSnakeCase(s + [c]) == ToSnakeCase(s)
  {
    SeparatorSplits("", c, s);
    assert "" + [c] + s == [c] + s;
    SeparatorSplits(s, c, "");
    assert s + [c] + "" == s + [c];
  }

  /** Any number of separators before and after the name (all the whitespace
      `strip()` removes, among others) do not change the result. */
  lemma {:induction false} SeparatorRuns(w1: string, s: string, w2: string)
    requires forall c :: c in w1 + w2 ==> IsSeparator(c)
    ensures ToSnakeCase(w1 + s + w2) == ToSnakeCase(s)
    decreases |w1| + |w2|
  {
    if |w1| > 0 {
      var rest := w1[1..];
      assert w1 + s + w2 == [w1[0]] + (rest + s + w2);
      assert w1[0] in w1 + w2;
      assert forall c :: c in rest + w2 ==> c in w1 + w2 by {
        assert w1 == [w1[0]] + rest;
      }
      SeparatorPadding(w1[0], rest + s + w2);
      SeparatorRuns(rest, s, w2);
    } else if |w2| > 0 {
      var rest := w2[..|w2| - 1];
      var c := w2[|w2| - 1];
      assert w1 + s + w2 == (w1 + s + rest) + [c];
      assert c in w1 + w2;
      assert forall x :: x in w1 + rest ==> x in w1 + w2 by {
        assert w2 == rest + [c];
      }
      SeparatorPadding(c, w1 + s + rest);
      SeparatorRuns(w1, s, rest);
    } else {
      assert w1 + s + w2 == s;
    }
  }

  /** The loop copies a string that is already in snake form. */
  lemma {:induction false} ScanCopies(buf: string, s: string)
    requires IsBuffer(buf + s)
    ensures Scan(buf, s) == buf + s
    decreases |s|
  {
    if |s| > 0 {
      var c := s[0];
      assert (buf + s)[|buf|] == c;
      if c == '_' {
        assert |buf| > 0;
        assert (buf + s)[|buf| - 1] == buf[|buf| - 1];
      }
      assert Step(buf, c) == buf + [c];
      assert (buf + [c]) + s[1..] == buf + s;
      ScanCopies(buf + [c], s[1..]);
    }
  }

  /** Snake-case tokens are exactly the fixed points of the sanitiser. */
  lemma FixedPoint(s: string)
    ensures ToSnakeCase(s) == s <==> IsSnake(s)
  {
    if IsSnake(s) {
      ScanCopies("", s);
      assert "" + s == s;
    }
  }

  /** Sanitising twice is sanitising once. */
  lemma Idempotent(s: string)
    ensures ToSnakeCase(ToSnakeCase(s)) == ToSnakeCase(s)
  {
    FixedPoint(ToSnakeCase(s));
  }
}
