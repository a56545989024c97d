/** The cover file name `main` derives from the album metadata:
    `album_cover_<artist>_<album>.jpeg`, both parts sanitised. */
module CoverFile {
  import opened Ascii
  import SnakeCase

  const Prefix: string := "album_cover_"
  const Extension: string := ".jpeg"

  /** A character that may appear in a derived file name. */
  predicate IsNameChar(c: char) { IsLower(c) || IsDigit(c) || c == '_' || c == '.' }

  predicate NameChars(s: string) { forall i :: 0 <= i < |s| ==> IsNameChar(s[i]) }

  lemma NameCharsConcat(x: string, y: string)
    requires NameChars(x) && NameChars(y)
    ensures NameChars(x + y)
  {
    assert forall i :: |x| <= i < |x + y| ==> (x + y)[i] == y[i - |x|];
  }

  function CoverFileName(artist: string, album: string): (name: string)
    ensures |name| >= |Prefix| + |Extension| + 1
    ensures name[..|Prefix|] == Prefix
    ensures name[|name| - |Extension|..] == Extension
    ensures NameChars(name)
  {
    var a := SnakeCase.ToSnakeCase(artist);
    var b := SnakeCase.ToSnakeCase(album);
    assert NameChars(Prefix) && NameChars("_") && NameChars(Extension);
    assert NameChars(a) && NameChars(b);
    NameCharsConcat(Prefix, a);
    NameCharsConcat(Prefix + a, "_");
    NameCharsConcat(Prefix + a + "_", b);
    NameCharsConcat(Prefix + a + "_" + b, Extension);
    Prefix + a + "_" + b + Extension
  }

  /** Whatever the metadata, the name stays in the working directory: it has
      no path separator and is not a hidden file. */
  lemma NameStaysLocal(artist: string, album: string)
    ensures '/' !in CoverFileName(artist, album)
    ensures CoverFileName(artist, album)[0] != '.'
  {
    var name := CoverFileName(artist, album);
    assert name[0] == Prefix[0];
  }

  /** The name depends on the metadata only through its sanitised form:
      metadata that is already sanitised gives the same file. */
  lemma SanitisedPartsSameName(artist: string, album: string)
    ensures CoverFileName(SnakeCase.ToSnakeCase(artist), SnakeCase.ToSnakeCase(album))
      == CoverFileName(artist, album)
  {
    SnakeCase.Idempotent(artist);
    SnakeCase.Idempotent(album);
  }

  /** The name does not tell artist and album apart: the `_` that joins them
      is also what a space inside either becomes. */
  lemma NamesCollide()
    ensures CoverFileName("a b", "c") == CoverFileName("a", "b c")
  {
    assert SnakeCase.ToSnakeCase("a b") == "a_b" by {
      JoinedBySpace('a', 'b');
    }
    assert SnakeCase.ToSnakeCase("b c") == "b_c" by {
      JoinedBySpace('b', 'c');
    }
    assert SnakeCase.ToSnakeCase("a") == "a" by {
      SingleLetter('a');
    }
    assert SnakeCase.ToSnakeCase("c") == "c" by {
      SingleLetter('c');
    }
    assert "a_b" + "_" + "c" == "a" + "_" + "b_c";
    NameFromParts("a b", "c", "a_b_c");
    NameFromParts("a", "b c", "a_b_c");
  }

  /** Between the prefix and the extension sit the sanitised artist, one `_`
      and the sanitised album. */
  lemma NameFromParts(artist: string, album: string, middle: string)
    requires SnakeCase.ToSnakeCase(artist) + "_" + SnakeCase.ToSnakeCase(album) == middle
    ensures CoverFileName(artist, album) == Prefix + middle + Extension
  {
  }

  /** A lower-case letter sanitises to itself. */
  lemma SingleLetter(x: char)
    requires IsLower(x)
    ensures SnakeCase.ToSnakeCase([x]) == [x]
  {
    SnakeCase.KeptOnly([x]);
    assert SnakeCase.Lower([x]) == [SnakeCase.Normalize(x)] + SnakeCase.Lower([]);
  }

  /** Two lower-case letters around a space sanitise to the letters joined by `_`. */
  lemma JoinedBySpace(x: char, y: char)
    requires IsLower(x) && IsLower(y)
    ensures SnakeCase.ToSnakeCase([x, ' ', y]) == [x, '_', y]
  {
    SingleLetter(x);
    SingleLetter(y);
    SnakeCase.SeparatorSplits([x], ' ', [y]);
    assert [x] + [' '] + [y] == [x, ' ', y];
  }
}
