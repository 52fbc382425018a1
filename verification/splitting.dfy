/** Python's `str.split(sep)` for a non-empty separator: the capture is cut at
    every occurrence of the sync word, scanning left to right, and the sync
    word itself is dropped. */
module Splitting {

  /** The frame sync word (cf-nf_data.py line 31). */
  const SyncWord: string := "AAFF"

  predicate OccursAt(s: string, sep: string, i: nat) {
    i + |sep| <= |s| && s[i..i + |sep|] == sep
  }

  predicate Contains(s: string, sep: string) {
    exists i: nat | i <= |s| :: OccursAt(s, sep, i)
  }

  /** The pieces glued together with `sep` between neighbours (Python's
      `str.join`). */
  function Join(pieces: seq<string>, sep: string): (s: string)
    requires |pieces| >= 1
    ensures |s| >= |pieces[0]| && s[..|pieces[0]|] == pieces[0]
  {
    if |pieces| == 1 then pieces[0] else pieces[0] + sep + Join(pieces[1..], sep)
  }

  /** `s.split(sep)`: the first piece runs up to the leftmost occurrence of
      `sep`, the rest is the split of what follows that occurrence. */
  function Split(s: string, sep: string): (pieces: seq<string>)
    requires |sep| > 0
    ensures |pieces| >= 1
    decreases |s|
  {
    if |s| < |sep| then [s]
    else if s[..|sep|] == sep then [""] + Split(s[|sep|..], sep)
    else
      var rest := Split(s[1..], sep);
      [[s[0]] + rest[0]] + rest[1..]
  }

  /** Joining the pieces with the separator gives the capture back. */
  lemma {:induction false} SplitJoin(s: string, sep: string)
    requires |sep| > 0
    ensures Join(Split(s, sep), sep) == s
    decreases |s|
  {
    if |s| < |sep| {
    } else if s[..|sep|] == sep {
      var t := s[|sep|..];
      var rest := Split(t, sep);
      assert Split(s, sep) == [""] + rest;
      assert Join([""] + rest, sep) == sep + Join(rest, sep) by { JoinCons("", rest, sep); }
      SplitJoin(t, sep);
      assert s == sep + t;
    } else {
      var rest := Split(s[1..], sep);
      assert Split(s, sep) == [[s[0]] + rest[0]] + rest[1..];
      JoinPrepend([s[0]], rest, sep);
      SplitJoin(s[1..], sep);
      assert [s[0]] + s[1..] == s;
    }
  }

  /** Joining a piece in front of non-empty pieces puts one separator
      between them. */
  lemma JoinCons(x: string, pieces: seq<string>, sep: string)
    requires |pieces| >= 1
    ensures Join([x] + pieces, sep) == x + sep + Join(pieces, sep)
  {
    assert ([x] + pieces)[1..] == pieces;
  }

  /** Gluing text onto the first piece glues it onto the joined string. */
  lemma JoinPrepend(x: string, pieces: seq<string>, sep: string)
    requires |pieces| >= 1
    ensures Join([x + pieces[0]] + pieces[1..], sep) == x + Join(pieces, sep)
  {
    var glued := [x + pieces[0]] + pieces[1..];
    assert glued[1..] == pieces[1..];
  }

  /** No piece contains the separator: every occurrence was cut out. */
  lemma {:induction false} SplitPiecesFree(s: string, sep: string)
    requires |sep| > 0
    ensures forall k :: 0 <= k < |Split(s, sep)| ==> !Contains(Split(s, sep)[k], sep)
    decreases |s|
  {
    var pieces := Split(s, sep);
    if |s| < |sep| {
      assert pieces == [s];
      assert !Contains(s, sep);
    } else if s[..|sep|] == sep {
      var t := s[|sep|..];
      SplitPiecesFree(t, sep);
      assert pieces[1..] == Split(t, sep);
      assert !Contains("", sep);
      forall k | 1 <= k < |pieces| ensures !Contains(pieces[k], sep) {
        assert pieces[k] == Split(t, sep)[k - 1];
      }
    } else {
      var rest := Split(s[1..], sep);
      SplitPiecesFree(s[1..], sep);
      SplitJoin(s[1..], sep);
      var first := pieces[0];
      assert first == [s[0]] + rest[0];
      assert rest[0] == s[1..][..|rest[0]|];
      assert first == s[..|first|];
      forall i: nat | OccursAt(first, sep, i) ensures false {
        if i > 0 {
          assert first[i..i + |sep|] == rest[0][i - 1..i - 1 + |sep|];
          assert OccursAt(rest[0], sep, i - 1);
        }
      }
      forall k | 1 <= k < |pieces| ensures !Contains(pieces[k], sep) {
        assert pieces[k] == rest[k];
      }
    }
  }

  /** A string without the separator character splits into itself alone. */
  lemma {:induction false} SplitWithoutChar(x: string, c: char)
    requires c !in x
    ensures Split(x, [c]) == [x]
    decreases |x|
  {
    if |x| >= 1 {
      assert x[..1] != [c] by { assert x[..1][0] == x[0]; }
      SplitWithoutChar(x[1..], c);
      assert [x[0]] + x[1..] == x;
    }
  }

  /** Splitting on a single character cuts at its first occurrence. */
  lemma {:induction false} SplitAtChar(x: string, rest: string, c: char)
    requires c !in x
    ensures Split(x + [c] + rest, [c]) == [x] + Split(rest, [c])
    decreases |x|
  {
    var s := x + [c] + rest;
    if |x| == 0 {
      assert s[..1] == [c];
      assert s[1..] == rest;
    } else {
      assert s[..1] != [c] by { assert s[..1][0] == x[0]; }
      assert s[1..] == x[1..] + [c] + rest;
      SplitAtChar(x[1..], rest, c);
      assert [x[0]] + x[1..] == x;
    }
  }
}
