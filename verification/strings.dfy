/** Go's `strings.Split` on a one-character separator, with `Join` as its
    inverse. The controller splits the comma-separated peer cluster list
    with it. */
module Strings {

  /** Glues the pieces back together with `sep` between consecutive pieces. */
  function Join(pieces: seq<string>, sep: char): (s: string)
    requires |pieces| >= 1
    ensures |s| >= |pieces| - 1
    decreases |pieces|
  {
    if |pieces| == 1 then pieces[0]
    else pieces[0] + [sep] + Join(pieces[1..], sep)
  }

  /** Splits `s` around every occurrence of `sep`. Like Go's `strings.Split`
      with a non-empty separator, the result always holds at least one piece
      (the empty string yields `[""]`), empty pieces are kept, and there is one
      more piece than there are separators. */
  function Split(s: string, sep: char): (pieces: seq<string>)
    ensures |pieces| >= 1
    ensures forall i :: 0 <= i < |pieces| ==> sep !in pieces[i]
    ensures Join(pieces, sep) == s
    decreases |s|
  {
    if |s| == 0 then [""]
    else if s[0] == sep then
      var rest := Split(s[1..], sep);
      assert [sep] + Join(rest, sep) == s;
      [""] + rest
    else
      var rest := Split(s[1..], sep);
      var pieces := [[s[0]] + rest[0]] + rest[1..];
      assert pieces[1..] == rest[1..];
      assert s == [s[0]] + s[1..];
      pieces
  }

  /** Split undoes Join: pieces free of the separator are recovered exactly. */
  lemma {:induction false} SplitJoin(pieces: seq<string>, sep: char)
    requires |pieces| >= 1
    requires forall i :: 0 <= i < |pieces| ==> sep !in pieces[i]
    ensures Split(Join(pieces, sep), sep) == pieces
    decreases |pieces|, |pieces[0]|
  {
    var s := Join(pieces, sep);
    if |pieces[0]| == 0 {
      if |pieces| == 1 {
        assert s == "";
      } else {
        assert s == [sep] + Join(pieces[1..], sep);
        assert s[1..] == Join(pieces[1..], sep);
        SplitJoin(pieces[1..], sep);
        assert Split(s, sep) == [""] + pieces[1..];
      }
    } else {
      var c := pieces[0][0];
      assert c != sep by { assert c in pieces[0]; }
      var shorter := [pieces[0][1..]] + pieces[1..];
      assert shorter[1..] == pieces[1..];
      assert forall i :: 0 <= i < |shorter| ==> sep !in shorter[i] by {
        forall i | 0 <= i < |shorter|
          ensures sep !in shorter[i]
        {
          if i == 0 {
            assert forall x :: x in pieces[0][1..] ==> x in pieces[0];
          } else {
            assert shorter[i] == pieces[i];
          }
        }
      }
      if |pieces| == 1 {
        assert s == pieces[0];
        assert Join(shorter, sep) == pieces[0][1..];
      } else {
        assert Join(shorter, sep) == pieces[0][1..] + [sep] + Join(pieces[1..], sep);
      }
      assert s[0] == c;
      assert s[1..] == Join(shorter, sep);
      SplitJoin(shorter, sep);
      assert [c] + pieces[0][1..] == pieces[0];
    }
  }

  /** Split gives exactly one more piece than `s` holds separators. */
  lemma {:induction false} SplitCount(s: string, sep: char)
    ensures |Split(s, sep)| == Occurrences(s, sep) + 1
    decreases |s|
  {
    if |s| > 0 {
      SplitCount(s[1..], sep);
    }
  }

  /** Number of positions of `s` holding `c`. */
  function Occurrences(s: string, c: char): (n: nat)
    ensures n <= |s|
    ensures n == 0 <==> c !in s
    decreases |s|
  {
    if |s| == 0 then 0
    else (if s[0] == c then 1 else 0) + Occurrences(s[1..], c)
  }
}
