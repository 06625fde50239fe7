/**
 * String helpers with the meaning the catalog relies on: Python's
 * `str.split(sep)` for a one-character separator, its inverse `sep.join`,
 * and substring containment.
 */
module Text {

  /** Python's `s.split(sep)`: every piece between separators, empty pieces
      included; the result is never empty (`"".split(",") == [""]`). */
  function Split(s: string, sep: char): (pieces: seq<string>)
    ensures |pieces| >= 1
    ensures |pieces| == 1 <==> sep !in s
    ensures forall k :: 0 <= k < |pieces| ==> sep !in pieces[k]
    decreases |s|
  {
    if |s| == 0 then [""]
    else
      assert sep in s <==> s[0] == sep || sep in s[1..];
      var rest := Split(s[1..], sep);
      if s[0] == sep then [""] + rest
      else [[s[0]] + rest[0]] + rest[1..]
  }

  /** There is one more piece than there are separators. */
  lemma {:induction false} SplitCount(s: string, sep: char)
    ensures |Split(s, sep)| == multiset(s)[sep] + 1
    decreases |s|
  {
    if |s| > 0 {
      assert s == [s[0]] + s[1..];
      SplitCount(s[1..], sep);
      if s[0] == sep {
        SplitSeparatorHead(s, sep);
      } else {
        SplitOrdinaryHead(s, sep);
      }
    }
  }

  /** Python's `sep.join(pieces)`. */
  function Join(pieces: seq<string>, sep: char): string
    decreases |pieces|
  {
    if |pieces| == 0 then ""
    else if |pieces| == 1 then pieces[0]
    else pieces[0] + [sep] + Join(pieces[1..], sep)
  }

  /** Joining the pieces of a split gives back the original string. */
  lemma {:induction false} JoinSplit(s: string, sep: char)
    ensures Join(Split(s, sep), sep) == s
    decreases |s|
  {
    if |s| > 0 {
      var rest := Split(s[1..], sep);
      JoinSplit(s[1..], sep);
      if s[0] == sep {
        SplitSeparatorHead(s, sep);
        var pieces := [""] + rest;
        assert pieces[1..] == rest;
        assert Join(pieces, sep) == "" + [sep] + Join(rest, sep);
        assert s == [s[0]] + s[1..];
      } else {
        SplitOrdinaryHead(s, sep);
        var pieces := [[s[0]] + rest[0]] + rest[1..];
        if |rest| == 1 {
          assert Join(pieces, sep) == [s[0]] + rest[0];
        } else {
          assert pieces[1..] == rest[1..];
          assert Join(rest, sep) == rest[0] + [sep] + Join(rest[1..], sep);
          assert Join(pieces, sep) == [s[0]] + rest[0] + [sep] + Join(rest[1..], sep);
        }
        assert s == [s[0]] + s[1..];
      }
    }
  }

  lemma SplitSeparatorHead(s: string, sep: char)
    requires |s| > 0 && s[0] == sep
    ensures Split(s, sep) == [""] + Split(s[1..], sep)
  {
  }

  lemma SplitOrdinaryHead(s: string, sep: char)
    requires |s| > 0 && s[0] != sep
    ensures Split(s, sep) == [[s[0]] + Split(s[1..], sep)[0]] + Split(s[1..], sep)[1..]
  {
  }

  /** Splitting a string whose head `a` holds no separator puts `a` in front
      of the first piece of the tail's split. */
  lemma {:induction false} SplitSeparatorFreeHead(a: string, t: string, sep: char)
    requires sep !in a
    ensures Split(a + t, sep) == [a + Split(t, sep)[0]] + Split(t, sep)[1..]
    decreases |a|
  {
    if |a| > 0 {
      assert (a + t)[1..] == a[1..] + t;
      SplitSeparatorFreeHead(a[1..], t, sep);
      assert [a[0]] + (a[1..] + Split(t, sep)[0]) == a + Split(t, sep)[0];
    } else {
      var p := Split(t, sep);
      assert a + t == t;
      assert a + p[0] == p[0];
      assert [p[0]] + p[1..] == p;
    }
  }

  /** Splitting the join of separator-free pieces gives back the pieces. */
  lemma {:induction false} SplitJoin(pieces: seq<string>, sep: char)
    requires |pieces| >= 1
    requires forall k :: 0 <= k < |pieces| ==> sep !in pieces[k]
    ensures Split(Join(pieces, sep), sep) == pieces
    decreases |pieces|
  {
    assert pieces[0] + "" == pieces[0];
    if |pieces| == 1 {
      SplitSeparatorFreeHead(pieces[0], "", sep);
    } else {
      var tail := Join(pieces[1..], sep);
      SplitJoin(pieces[1..], sep);
      var t := [sep] + tail;
      assert t[1..] == tail;
      assert Split(t, sep) == [""] + pieces[1..];
      assert Join(pieces, sep) == pieces[0] + t;
      SplitSeparatorFreeHead(pieces[0], t, sep);
    }
  }

  /** `e` is the part of `s` after its final separator, or all of `s`
      when it has none. */
  ghost predicate IsFinalSegment(s: string, sep: char, e: string)
  {
    && |e| <= |s|
    && s[|s| - |e|..] == e
    && sep !in e
    && (sep in s ==> s[|s| - |e| - 1] == sep)
    && (sep !in s ==> e == s)
  }

  /** The last piece of a split is the part of `s` after the final
      separator, or all of `s` when there is no separator. */
  lemma LastPieceIsFinalSegment(s: string, sep: char)
    ensures var p := Split(s, sep); IsFinalSegment(s, sep, p[|p| - 1])
  {
  }

  /** Plain substring test: does `needle` occur anywhere in `hay`? */
  predicate Contains(hay: string, needle: string)
    decreases |hay|
  {
    needle <= hay || (|hay| > 0 && Contains(hay[1..], needle))
  }

  /** Reference meaning of substring occurrence. */
  ghost predicate OccursAt(hay: string, needle: string, i: int)
  {
    0 <= i <= |hay| && needle <= hay[i..]
  }

  /** `Contains` holds exactly when the needle occurs at some position. */
  lemma {:induction false} ContainsIffOccurs(hay: string, needle: string)
    ensures Contains(hay, needle) <==> exists i :: OccursAt(hay, needle, i)
    decreases |hay|
  {
    if needle <= hay {
      assert hay[0..] == hay;
      assert OccursAt(hay, needle, 0);
    } else if |hay| > 0 {
      ContainsIffOccurs(hay[1..], needle);
      if Contains(hay[1..], needle) {
        var j :| OccursAt(hay[1..], needle, j);
        assert hay[1..][j..] == hay[j + 1..];
        assert OccursAt(hay, needle, j + 1);
      } else {
        forall i | OccursAt(hay, needle, i) && i > 0
          ensures OccursAt(hay[1..], needle, i - 1)
        {
          assert hay[1..][i - 1..] == hay[i..];
        }
      }
    }
  }
}
