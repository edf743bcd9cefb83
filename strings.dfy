/** The two string operations the ingestion uses, with Python's meaning:
    `s.split(sep)` for a one-character separator and `s.strip(chars)`, which
    removes a SET of characters (not a prefix or suffix word) from both ends. */
module Strings {

  /** Number of occurrences of `c` in `s`. */
  function Occurrences(s: string, c: char): nat
  {
    if s == [] then 0 else (if s[0] == c then 1 else 0) + Occurrences(s[1..], c)
  }

  /** `sep.join(pieces)`. */
  function Join(pieces: seq<string>, sep: char): string
  {
    if pieces == [] then ""
    else if |pieces| == 1 then pieces[0]
    else pieces[0] + [sep] + Join(pieces[1..], sep)
  }

  /** `s.split(sep)`: the maximal separator-free pieces between separators,
      one more piece than there are separators (so `"".split(sep) == [""]`),
      and joining them back with the separator gives `s` again. */
  function Split(s: string, sep: char): (r: seq<string>)
    ensures |r| == Occurrences(s, sep) + 1
    ensures forall p :: p in r ==> sep !in p
    ensures Join(r, sep) == s
  {
    if s == [] then [""]
    else
      var rest := Split(s[1..], sep);
      if s[0] == sep then
        JoinEmptyFirst(rest, sep);
        [""] + rest
      else
        var r := [[s[0]] + rest[0]] + rest[1..];
        JoinExtendFirst(s[0], rest, sep);
        assert forall p :: p in r ==> p == r[0] || p in rest;
        r
  }

  /** Joining after an empty first piece starts with the separator. */
  lemma JoinEmptyFirst(rest: seq<string>, sep: char)
    requires |rest| >= 1
    ensures Join([""] + rest, sep) == [sep] + Join(rest, sep)
  {
    assert ([""] + rest)[1..] == rest;
  }

  /** Lengthening the first piece by one character lengthens the join by
      that character. */
  lemma JoinExtendFirst(c: char, rest: seq<string>, sep: char)
    requires |rest| >= 1
    ensures Join([[c] + rest[0]] + rest[1..], sep) == [c] + Join(rest, sep)
  {
    var r := [[c] + rest[0]] + rest[1..];
    assert r[1..] == rest[1..];
    if |rest| > 1 {
      assert Join(rest, sep) == rest[0] + [sep] + Join(rest[1..], sep);
    }
  }

  /** The other round trip: splitting a join of separator-free pieces gives
      the pieces back. */
  lemma {:induction false} SplitJoin(pieces: seq<string>, sep: char)
    requires |pieces| >= 1
    requires forall p :: p in pieces ==> sep !in p
    ensures Split(Join(pieces, sep), sep) == pieces
    decreases |pieces|, |pieces[0]|
  {
    var head := pieces[0];
    if head == [] {
      if |pieces| > 1 {
        var tail := pieces[1..];
        SplitJoin(tail, sep);
        assert pieces == [""] + tail;
        JoinEmptyFirst(tail, sep);
        var s := Join(pieces, sep);
        assert s[0] == sep && s[1..] == Join(tail, sep);
      }
    } else {
      var shorter := [head[1..]] + pieces[1..];
      assert forall p :: p in shorter ==> p == head[1..] || p in pieces;
      assert sep !in head[1..] by {
        assert forall c :: c in head[1..] ==> c in head;
      }
      SplitJoin(shorter, sep);
      assert head[0] != sep by { assert head[0] in head; }
      assert [[head[0]] + shorter[0]] + shorter[1..] == pieces by {
        assert [head[0]] + head[1..] == head;
        assert shorter[1..] == pieces[1..];
      }
      JoinExtendFirst(head[0], shorter, sep);
      var s := Join(pieces, sep);
      assert s[0] == head[0] && s[1..] == Join(shorter, sep);
    }
  }

  /** `s.lstrip(chars)`: the longest suffix that does not start with a
      character of `chars`. */
  function LStrip(s: string, chars: set<char>): (r: string)
    ensures |r| <= |s| && r == s[|s| - |r|..]
    ensures forall k :: 0 <= k < |s| - |r| ==> s[k] in chars
    ensures r == [] || r[0] !in chars
  {
    if s != [] && s[0] in chars then LStrip(s[1..], chars) else s
  }

  /** `s.rstrip(chars)`: the longest prefix that does not end with a
      character of `chars`. */
  function RStrip(s: string, chars: set<char>): (r: string)
    ensures |r| <= |s| && r == s[..|r|]
    ensures forall k :: |r| <= k < |s| ==> s[k] in chars
    ensures r == [] || r[|r| - 1] !in chars
  {
    if s != [] && s[|s| - 1] in chars then RStrip(s[..|s| - 1], chars) else s
  }

  /** `s.strip(chars)`: strips `chars` from both ends. */
  function Strip(s: string, chars: set<char>): (r: string)
    ensures |r| <= |s|
    ensures r == [] || (r[0] !in chars && r[|r| - 1] !in chars)
  {
    var left := LStrip(s, chars);
    var r := RStrip(left, chars);
    assert r != [] ==> r[0] == left[0];
    r
  }

  /** The result of `Strip` is a contiguous slice of `s`; everything cut off
      on either side of it is made of characters of `chars`. */
  lemma StripSlice(s: string, chars: set<char>)
    ensures var r := Strip(s, chars);
            var i := |s| - |LStrip(s, chars)|;
            && i + |r| <= |s| && r == s[i..i + |r|]
            && (forall k :: 0 <= k < i ==> s[k] in chars)
            && (forall k :: i + |r| <= k < |s| ==> s[k] in chars)
  {
    var left := LStrip(s, chars);
    var r := RStrip(left, chars);
    PrefixOfSuffix(s, |s| - |left|, r);
  }

  /** A prefix `r` of the suffix of `s` from `i` is the slice of `s` from `i`,
      and what follows it in that suffix is what follows it in `s`. */
  lemma PrefixOfSuffix(s: string, i: nat, r: string)
    requires i <= |s| && |r| <= |s| - i && r == s[i..][..|r|]
    ensures r == s[i..i + |r|]
    ensures forall k :: i + |r| <= k < |s| ==> s[k] == s[i..][k - i]
  {
  }

  /** Stripping twice is stripping once. */
  lemma {:induction false} StripIdempotent(s: string, chars: set<char>)
    ensures Strip(Strip(s, chars), chars) == Strip(s, chars)
  {
    var r := Strip(s, chars);
    assert LStrip(r, chars) == r;
    assert RStrip(r, chars) == r;
  }
}
