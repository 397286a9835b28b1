/** The string operations the search handler relies on: lowercasing,
    substring containment (`includes`) and splitting on a single space
    (`split(' ')`). */
module Text {

  /** ASCII lowercasing of one character. */
  function LowerChar(c: char): char
  {
    if 'A' <= c <= 'Z' then (c as int - 'A' as int + 'a' as int) as char else c
  }

  /** `toLowerCase`, restricted to ASCII letters. */
  function Lower(s: string): (r: string)
    ensures |r| == |s|
    ensures forall i :: 0 <= i < |s| ==> r[i] == LowerChar(s[i])
    ensures forall i :: 0 <= i < |r| ==> !('A' <= r[i] <= 'Z')
  {
    seq(|s|, i requires 0 <= i < |s| => LowerChar(s[i]))
  }

  /** Lowercasing twice changes nothing. */
  lemma LowerIdempotent(t: string)
    ensures Lower(Lower(t)) == Lower(t)
  {
  }

  /** `needle` occurs in `hay` starting at position `i`. */
  predicate OccursAt(hay: string, needle: string, i: int)
  {
    0 <= i && i + |needle| <= |hay| && hay[i..i + |needle|] == needle
  }

  /** `hay.includes(needle)`: scan for the first position where `needle` starts. */
  function Contains(hay: string, needle: string): bool
    decreases |hay|
  {
    if |needle| > |hay| then false
    else if needle == hay[..|needle|] then true
    else Contains(hay[1..], needle)
  }

  lemma OccursAtChar(hay: string, needle: string, i: int, k: nat)
    requires OccursAt(hay, needle, i) && k < |needle|
    ensures hay[i + k] == needle[k]
  {
    assert hay[i..i + |needle|][k] == hay[i + k];
  }

  /** Contains holds exactly when the needle occurs at some position. */
  lemma {:induction false} ContainsIffOccurs(hay: string, needle: string)
    ensures Contains(hay, needle) <==> exists i :: OccursAt(hay, needle, i)
    decreases |hay|
  {
    if |needle| > |hay| {
      assert forall i :: !OccursAt(hay, needle, i);
    } else if needle == hay[..|needle|] {
      assert OccursAt(hay, needle, 0);
    } else {
      ContainsIffOccurs(hay[1..], needle);
      if Contains(hay[1..], needle) {
        var i :| OccursAt(hay[1..], needle, i);
        assert hay[i + 1..i + 1 + |needle|] == hay[1..][i..i + |needle|];
        assert OccursAt(hay, needle, i + 1);
      } else {
        forall i | OccursAt(hay, needle, i) ensures false {
          assert i != 0;
          assert hay[1..][i - 1..i - 1 + |needle|] == hay[i..i + |needle|];
          assert OccursAt(hay[1..], needle, i - 1);
        }
      }
    }
  }

  /** A needle containing a character the haystack lacks is not included. */
  lemma AbsentChar(hay: string, needle: string, c: char)
    requires c in needle && c !in hay
    ensures !Contains(hay, needle)
  {
    ContainsIffOccurs(hay, needle);
  }

  /** A string with no upper-case ASCII letter is its own lowercase form. */
  lemma LowerNoUpper(t: string)
    requires forall i :: 0 <= i < |t| ==> !('A' <= t[i] <= 'Z')
    ensures Lower(t) == t
  {
  }

  /** A needle whose characters the name's characters from position `i` on
      lower to is included in the lowercased name. */
  lemma FoundAt(name: string, needle: string, i: nat)
    requires i + |needle| <= |name|
    requires forall k :: 0 <= k < |needle| ==> LowerChar(name[i + k]) == needle[k]
    ensures Contains(Lower(name), needle)
  {
    var h := Lower(name);
    assert h[i..i + |needle|] == needle;
    ContainsIffOccurs(h, needle);
    assert OccursAt(h, needle, i);
  }

  /** A needle holding a letter that no character of `name` lowers to is
      not included in the lowercased name. */
  lemma MissingLetter(name: string, needle: string, c: char)
    requires c in needle
    requires forall i :: 0 <= i < |name| ==> LowerChar(name[i]) != c
    ensures !Contains(Lower(name), needle)
  {
    AbsentChar(Lower(name), needle, c);
  }

  /** When `needle[p]` occurs in the lowercased name only at position `j`, any
      occurrence of the needle starts at `j - p`; a mismatch at its m-th
      character rules that out. */
  lemma LoneLetter(name: string, needle: string, p: nat, j: int, m: nat)
    requires p < |needle| && m < |needle|
    requires forall i :: 0 <= i < |name| && LowerChar(name[i]) == needle[p] ==> i == j
    requires 0 <= j - p + m < |name| ==> LowerChar(name[j - p + m]) != needle[m]
    ensures !Contains(Lower(name), needle)
  {
    var h := Lower(name);
    ContainsIffOccurs(h, needle);
    forall i | OccursAt(h, needle, i) ensures false {
      OccursAtChar(h, needle, i, p);
      OccursAtChar(h, needle, i, m);
    }
  }

  /** The empty string is contained in every string. */
  lemma ContainsEmpty(hay: string)
    ensures Contains(hay, "")
  {
  }

  // ---------------------------------------------------------------------
  // split(' ')
  // ---------------------------------------------------------------------

  /** `s.split(' ')`: the pieces between single spaces, always at least one;
      the empty string gives [""], and two spaces in a row give an empty piece. */
  function Split(s: string): (r: seq<string>)
    ensures |r| >= 1
    ensures forall k :: 0 <= k < |r| ==> ' ' !in r[k]
  {
    if s == [] then [""]
    else
      var rest := Split(s[1..]);
      if s[0] == ' ' then [""] + rest
      else [[s[0]] + rest[0]] + rest[1..]
  }

  /** Two spaces in a row leave an empty piece between them, and that piece
      is never the first one. */
  lemma {:induction false} DoubledSpaceEmptyPiece(s: string, i: nat)
    requires i + 1 < |s| && s[i] == ' ' && s[i + 1] == ' '
    ensures "" in Split(s)[1..]
  {
    var rest := Split(s[1..]);
    if i == 0 {
      assert s[1..][0] == ' ';
      assert rest[0] == "";
      assert Split(s)[1..] == rest;
    } else {
      DoubledSpaceEmptyPiece(s[1..], i - 1);
      var k :| 0 <= k < |rest[1..]| && rest[1..][k] == "";
      if s[0] == ' ' {
        assert Split(s)[1..] == rest && rest[k + 1] == "";
      } else {
        assert Split(s)[1..] == rest[1..];
      }
    }
  }

  /** The pieces glued back together with single spaces. */
  function Join(pieces: seq<string>): string
    requires |pieces| >= 1
  {
    if |pieces| == 1 then pieces[0] else pieces[0] + " " + Join(pieces[1..])
  }

  /** Splitting loses nothing: joining the pieces gives back the keyword. */
  lemma {:induction false} JoinSplit(s: string)
    ensures Join(Split(s)) == s
  {
    if s != [] {
      var rest := Split(s[1..]);
      JoinSplit(s[1..]);
      if s[0] == ' ' {
        assert Split(s)[1..] == rest;
      } else {
        var r := Split(s);
        assert r[1..] == rest[1..];
        if |rest| > 1 {
          assert rest[1..][0] == rest[1] && rest[1..][1..] == rest[2..];
          assert Join(rest) == rest[0] + " " + Join(rest[1..]);
        }
      }
    }
  }

  /** Splitting a word with no space in front of the rest of a string
      extends the first piece of the rest. */
  lemma {:induction false} SplitWordPrefix(w: string, t: string)
    requires ' ' !in w
    ensures Split(w + t) == [w + Split(t)[0]] + Split(t)[1..]
  {
    if w != [] {
      assert (w + t)[0] == w[0] && (w + t)[1..] == w[1..] + t;
      assert ' ' !in w[1..] by { assert forall c :: c in w[1..] ==> c in w; }
      SplitWordPrefix(w[1..], t);
      assert [w[0]] + (w[1..] + Split(t)[0]) == w + Split(t)[0];
    } else {
      assert w + t == t && w + Split(t)[0] == Split(t)[0];
      assert Split(t) == [Split(t)[0]] + Split(t)[1..];
    }
  }

  /** Splitting undoes joining, for pieces that contain no space: together
      with JoinSplit, Split is the one decomposition into space-free pieces. */
  lemma {:induction false} SplitJoin(pieces: seq<string>)
    requires |pieces| >= 1
    requires forall k :: 0 <= k < |pieces| ==> ' ' !in pieces[k]
    ensures Split(Join(pieces)) == pieces
  {
    if |pieces| == 1 {
      SplitWordPrefix(pieces[0], "");
      assert pieces[0] + "" == pieces[0];
    } else {
      var tail := Join(pieces[1..]);
      SplitJoin(pieces[1..]);
      SplitWordPrefix(pieces[0], " " + tail);
      assert (" " + tail)[1..] == tail;
      assert Split(" " + tail) == [""] + pieces[1..];
      assert pieces[0] + " " + tail == pieces[0] + (" " + tail);
      assert pieces[0] + "" == pieces[0];
    }
  }
}
