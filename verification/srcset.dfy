/** The srcset slicing in `download_cover_art`: of the comma-separated image
    candidates `"<url> <descriptor>"`, take the last and keep the text before
    its first space. */
module Srcset {
  import opened Strings

  /** `srcset.split(',')[-1].split(" ")[0]` */
  function CandidateUrl(srcset: string): (url: string)
    ensures ',' !in url && ' ' !in url
  {
    var candidates := Split(srcset, ',');
    var last := candidates[|candidates| - 1];
    var head := Split(last, ' ')[0];
    assert ',' !in last by {
      SplitPiecesSeparatorFree(srcset, ',');
    }
    assert ',' !in head && ' ' !in head by {
      JoinPiecesInside(Split(last, ' '), ' ', 0);
      JoinSplit(last, ' ');
      SplitPiecesSeparatorFree(last, ' ');
    }
    head
  }

  /** A piece returned by `Split` is a piece of the joined string: each of its
      characters occurs in the whole. */
  lemma {:induction false} JoinPiecesInside(pieces: seq<string>, sep: char, k: nat)
    requires k < |pieces|
    ensures forall c :: c in pieces[k] ==> c in Join(pieces, sep)
  {
    if |pieces| > 1 {
      if k == 0 {
        assert Join(pieces, sep) == pieces[0] + ([sep] + Join(pieces[1..], sep));
      } else {
        JoinPiecesInside(pieces[1..], sep, k - 1);
        assert Join(pieces, sep) == (pieces[0] + [sep]) + Join(pieces[1..], sep);
      }
    }
  }

  /** Whatever text precedes the last comma, the URL is the last candidate up
      to (not including) its first space; in particular it is empty when that
      candidate starts with a space. */
  lemma CandidateUrlIsHeadOfLast(srcset: string, before: string, last: string)
    requires srcset == before + last
    requires before == [] || before[|before| - 1] == ','
    requires ',' !in last
    ensures |CandidateUrl(srcset)| <= |last|
    ensures last[..|CandidateUrl(srcset)|] == CandidateUrl(srcset)
    ensures |CandidateUrl(srcset)| == |last| || last[|CandidateUrl(srcset)|] == ' '
    ensures |last| > 0 && last[0] == ' ' ==> CandidateUrl(srcset) == ""
  {
    if before == [] {
      assert srcset == last;
      NoSeparatorOnePiece(last, ',');
    } else {
      var b := before[..|before| - 1];
      assert srcset == b + [','] + last;
      SplitAround(b, last, ',');
      NoSeparatorOnePiece(last, ',');
    }
    assert Split(Split(srcset, ',')[|Split(srcset, ',')| - 1], ' ') == Split(last, ' ');
    HeadBeforeSpace(last);
  }

  /** The first piece of splitting on spaces is the text before the first space. */
  lemma {:induction false} HeadBeforeSpace(s: string)
    ensures var h := Split(s, ' ')[0];
      |h| <= |s| && s[..|h|] == h && (|h| == |s| || s[|h|] == ' ')
  {
    if |s| > 0 && s[0] != ' ' {
      HeadBeforeSpace(s[1..]);
      var h := Split(s, ' ')[0];
      assert h == [s[0]] + Split(s[1..], ' ')[0];
      assert s == [s[0]] + s[1..];
    }
  }
}
