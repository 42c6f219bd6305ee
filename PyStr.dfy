/**
  * Python's `str.split(sep)` and `sep.join(parts)` for a one-character
  * separator, the two string builtins the queries rely on.
  */
module PyStr {

  /**
    * `s.split(sep)`: the pieces of `s` between occurrences of `sep`, in order.
    * Python always yields at least one piece: `"".split("/") == [""]` and
    * `"a/".split("/") == ["a", ""]`.
    */
  function Split(s: string, sep: char): (parts: seq<string>)
    ensures |parts| >= 1
    decreases |s|
  {
    if s == [] then [""]
    else
      var parts := Split(s[..|s| - 1], sep);
      var c := s[|s| - 1];
      if c == sep then parts + [""]
      else parts[..|parts| - 1] + [parts[|parts| - 1] + [c]]
  }

  /** `sep.join(parts)`: the parts with one `sep` between neighbours. */
  function Join(parts: seq<string>, sep: char): (s: string)
    decreases |parts|
  {
    if |parts| == 0 then ""
    else if |parts| == 1 then parts[0]
    else Join(parts[..|parts| - 1], sep) + [sep] + parts[|parts| - 1]
  }

  /** No piece of a split contains the separator. */
  lemma {:induction false} SplitPiecesAvoidSep(s: string, sep: char)
    ensures forall k :: 0 <= k < |Split(s, sep)| ==> sep !in Split(s, sep)[k]
    decreases |s|
  {
    if s != [] {
      SplitPiecesAvoidSep(s[..|s| - 1], sep);
    }
  }

  /** Joining the pieces of a split gives back the string. */
  lemma {:induction false} JoinSplit(s: string, sep: char)
    ensures Join(Split(s, sep), sep) == s
    decreases |s|
  {
    if s != [] {
      var init := s[..|s| - 1];
      var c := s[|s| - 1];
      var parts := Split(init, sep);
      JoinSplit(init, sep);
      var n := |parts|;
      if c == sep {
        assert (parts + [""])[..n] == parts;
      } else {
        var ps := parts[..n - 1] + [parts[n - 1] + [c]];
        if n > 1 {
          assert ps[..n - 1] == parts[..n - 1];
        }
      }
      assert init + [c] == s;
    }
  }

  /** A string free of the separator splits into itself alone. */
  lemma {:induction false} SplitWithoutSep(s: string, sep: char)
    requires sep !in s
    ensures Split(s, sep) == [s]
    decreases |s|
  {
    if s != [] {
      SplitWithoutSep(s[..|s| - 1], sep);
      assert s[..|s| - 1] + [s[|s| - 1]] == s;
    }
  }

  /** Appending a separator and a separator-free piece appends that piece to the split. */
  lemma {:induction false} SplitAfterSep(x: string, sep: char, piece: string)
    requires sep !in piece
    ensures Split(x + [sep] + piece, sep) == Split(x, sep) + [piece]
    decreases |piece|
  {
    var s := x + [sep] + piece;
    if piece == [] {
      assert s[..|s| - 1] == x;
    } else {
      var init := piece[..|piece| - 1];
      SplitAfterSep(x, sep, init);
      assert s[..|s| - 1] == x + [sep] + init;
      assert init + [piece[|piece| - 1]] == piece;
    }
  }

  /** Splitting a join of separator-free parts gives back the parts (there must be one at least). */
  lemma {:induction false} SplitJoin(parts: seq<string>, sep: char)
    requires |parts| >= 1
    requires forall k :: 0 <= k < |parts| ==> sep !in parts[k]
    ensures Split(Join(parts, sep), sep) == parts
    decreases |parts|
  {
    if |parts| == 1 {
      SplitWithoutSep(parts[0], sep);
    } else {
      var init := parts[..|parts| - 1];
      SplitJoin(init, sep);
      SplitAfterSep(Join(init, sep), sep, parts[|parts| - 1]);
      assert init + [parts[|parts| - 1]] == parts;
    }
  }
}
