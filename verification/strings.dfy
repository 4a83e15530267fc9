/** The string searches the translator relies on, stated on sequences of
    characters: `find` of a substring from a position, `find_last_of` a set
    of characters, and the cutting of a string at a separator. */
module Strings {
  import opened Wrappers

  type String = seq<char>

  /** `pat` occurs in `text` starting at `k`. */
  predicate MatchAt(text: String, pat: String, k: nat) {
    k + |pat| <= |text| && text[k..k + |pat|] == pat
  }

  /** `find(pat, from)`: the first occurrence of `pat` at or after `from`;
      `None` plays the part of `npos`. */
  function Find(text: String, pat: String, from: nat): (r: Option<nat>)
    ensures r.Some? ==> from <= r.value && MatchAt(text, pat, r.value)
    ensures r.Some? ==> forall k :: from <= k < r.value ==> !MatchAt(text, pat, k)
    ensures r.None? ==> forall k :: from <= k ==> !MatchAt(text, pat, k)
    decreases |text| - from
  {
    if from + |pat| > |text| then None
    else if text[from..from + |pat|] == pat then Some(from)
    else Find(text, pat, from + 1)
  }

  /** A match with none before it from `from` on is what `Find` returns. */
  lemma FindFirstAt(text: String, pat: String, from: nat, k: nat)
    requires from <= k && MatchAt(text, pat, k)
    requires forall j :: from <= j < k ==> !MatchAt(text, pat, j)
    ensures Find(text, pat, from) == Some(k)
  {
  }

  lemma MatchAtHead(text: String, pat: String, k: nat)
    requires MatchAt(text, pat, k) && pat != []
    ensures text[k] == pat[0]
  {
    assert text[k..k + |pat|][0] == text[k];
  }

  /** A one-character pattern matches where that character stands. */
  lemma MatchOne(text: String, c: char, k: nat)
    ensures MatchAt(text, [c], k) <==> k < |text| && text[k] == c
  {
    if k < |text| {
      assert text[k..k + 1] == [text[k]];
    }
  }

  /** The first occurrence of a character is found from any position
      before it up to which the character does not occur. */
  lemma FirstOfChar(text: String, c: char, from: nat, k: nat)
    requires from <= k < |text| && text[k] == c && c !in text[from..k]
    ensures Find(text, [c], from) == Some(k)
  {
    MatchOne(text, c, k);
    forall j | from <= j < k
      ensures !MatchAt(text, [c], j)
    {
      assert text[j] == text[from..k][j - from];
      MatchOne(text, c, j);
    }
    FindFirstAt(text, [c], from, k);
  }

  /** `text` contains `pat` somewhere. */
  predicate Contains(text: String, pat: String) {
    Find(text, pat, 0).Some?
  }

  /** `find_last_of(cs)`: the last position holding one of the characters
      `cs`; `None` plays the part of `npos`. */
  function FindLastOf(s: String, cs: set<char>): (r: Option<nat>)
    ensures r.Some? ==> r.value < |s| && s[r.value] in cs
    ensures r.Some? ==> forall j :: r.value < j < |s| ==> s[j] !in cs
    ensures r.None? ==> forall j :: 0 <= j < |s| ==> s[j] !in cs
    decreases |s|
  {
    if s == [] then None
    else if s[|s| - 1] in cs then Some(|s| - 1)
    else FindLastOf(s[..|s| - 1], cs)
  }

  /** A string without any of the characters `cs`. */
  predicate NoneOf(s: String, cs: set<char>) {
    forall j :: 0 <= j < |s| ==> s[j] !in cs
  }

  /** The last occurrence is found wherever the string is cut: in `a + [c] + b`
      with `c` in `cs` and no character of `cs` in `b`, it is `c`. */
  lemma FindLastOfJoin(a: String, c: char, b: String, cs: set<char>)
    requires c in cs && NoneOf(b, cs)
    ensures FindLastOf(a + [c] + b, cs) == Some(|a|)
  {
    var s := a + [c] + b;
    assert s[|a|] == c;
  }

  /** Characters that hold none of `cs` do not move the last occurrence. */
  lemma {:induction false} FindLastOfAppendNone(a: String, b: String, cs: set<char>)
    requires NoneOf(b, cs)
    ensures FindLastOf(a + b, cs) == FindLastOf(a, cs)
    decreases |b|
  {
    if b != [] {
      var init := b[..|b| - 1];
      assert (a + b)[..|a + b| - 1] == a + init;
      FindLastOfAppendNone(a, init, cs);
    } else {
      assert a + b == a;
    }
  }

  /** `find(c)`: the first position holding `c`. */
  function IndexOf(s: String, c: char): (r: Option<nat>)
    ensures r.Some? ==> r.value < |s| && s[r.value] == c && c !in s[..r.value]
    ensures r.None? <==> c !in s
    decreases |s|
  {
    if s == [] then None
    else if s[0] == c then Some(0)
    else match IndexOf(s[1..], c)
      case None => None
      case Some(i) =>
        assert s[..i + 1] == [s[0]] + s[1..][..i];
        Some(i + 1)
  }

  /** The pieces joined back with the separator between them. */
  function Join(pieces: seq<String>, sep: char): String
    requires |pieces| >= 1
    decreases |pieces|
  {
    if |pieces| == 1 then pieces[0] else pieces[0] + [sep] + Join(pieces[1..], sep)
  }

  /** The text between separators, empty pieces included. */
  function Pieces(s: String, sep: char): (r: seq<String>)
    ensures |r| >= 1
    decreases |s|
  {
    if s == [] then [[]]
    else
      var rest := Pieces(s[1..], sep);
      if s[0] == sep then [[]] + rest else [[s[0]] + rest[0]] + rest[1..]
  }

  /** The pieces hold no separator and give the text back when joined. */
  lemma {:induction false} PiecesJoin(s: String, sep: char)
    ensures Join(Pieces(s, sep), sep) == s
    ensures forall k :: 0 <= k < |Pieces(s, sep)| ==> sep !in Pieces(s, sep)[k]
    decreases |s|
  {
    if s != [] {
      var rest := Pieces(s[1..], sep);
      PiecesJoin(s[1..], sep);
      var r := Pieces(s, sep);
      if s[0] == sep {
        assert r[1..] == rest;
        assert s == [] + [sep] + s[1..];
        forall k | 0 <= k < |r|
          ensures sep !in r[k]
        {
          if k > 0 {
            assert r[k] == rest[k - 1];
          }
        }
      } else {
        if |rest| == 1 {
          assert s == [s[0]] + rest[0];
        } else {
          assert rest == [rest[0]] + rest[1..];
          assert r[1..] == rest[1..];
          assert Join(rest, sep) == rest[0] + [sep] + Join(rest[1..], sep);
          assert s == ([s[0]] + rest[0]) + [sep] + Join(rest[1..], sep);
        }
        forall k | 0 <= k < |r|
          ensures sep !in r[k]
        {
          if k > 0 {
            assert r[k] == rest[k];
          } else {
            assert r[0] == [s[0]] + rest[0];
          }
        }
      }
    }
  }

  /** `split(Sep, MaxSplit)` keeping empty pieces: cut at the first `max`
      separators; the last piece holds the rest. */
  function SplitAtMost(s: String, sep: char, max: nat): (r: seq<String>)
    ensures 1 <= |r| <= max + 1
    decreases max
  {
    match IndexOf(s, sep)
    case None => [s]
    case Some(i) => if max == 0 then [s] else [s[..i]] + SplitAtMost(s[i + 1..], sep, max - 1)
  }

  /** The cut pieces give the text back when joined. */
  predicate JoinsBack(s: String, sep: char, max: nat) {
    Join(SplitAtMost(s, sep, max), sep) == s
  }

  lemma {:induction false} SplitAtMostJoin(s: String, sep: char, max: nat)
    ensures JoinsBack(s, sep, max)
    decreases max
  {
    var found := IndexOf(s, sep);
    if found.Some? && max > 0 {
      var i := found.value;
      SplitAtMostJoin(s[i + 1..], sep, max - 1);
      SplitJoinStep(s, sep, max, i);
    } else {
      SplitJoinWhole(s, sep, max);
    }
  }

  /** Text that is not cut joins back. */
  lemma SplitJoinWhole(s: String, sep: char, max: nat)
    requires IndexOf(s, sep).None? || max == 0
    ensures JoinsBack(s, sep, max)
  {
    SplitWhole(s, sep, max);
    assert Join([s], sep) == s;
  }

  /** All cut pieces but the last hold no separator. */
  predicate CutsClean(s: String, sep: char, max: nat) {
    var pieces := SplitAtMost(s, sep, max);
    forall k :: 0 <= k < |pieces| - 1 ==> sep !in pieces[k]
  }

  lemma {:induction false} SplitAtMostPieces(s: String, sep: char, max: nat)
    ensures CutsClean(s, sep, max)
    decreases max
  {
    var found := IndexOf(s, sep);
    if found.Some? && max > 0 {
      var i := found.value;
      SplitAtMostPieces(s[i + 1..], sep, max - 1);
      SplitCleanStep(s, sep, max, i);
    } else {
      SplitWhole(s, sep, max);
    }
  }

  /** The first cut holds no separator, so the cuts are clean when the
      cuts after it are. */
  lemma SplitCleanStep(s: String, sep: char, max: nat, i: nat)
    requires IndexOf(s, sep) == Some(i) && max > 0
    requires CutsClean(s[i + 1..], sep, max - 1)
    ensures CutsClean(s, sep, max)
  {
    var rest := SplitAtMost(s[i + 1..], sep, max - 1);
    SplitStep(s, sep, max, i);
    var r := [s[..i]] + rest;
    forall k | 0 <= k < |r| - 1
      ensures sep !in r[k]
    {
      if k > 0 {
        assert r[k] == rest[k - 1];
      }
    }
  }

  /** The first cut: the text before the first separator, then the cuts of
      the text after it. */
  lemma SplitStep(s: String, sep: char, max: nat, i: nat)
    requires IndexOf(s, sep) == Some(i) && max > 0
    ensures SplitAtMost(s, sep, max) == [s[..i]] + SplitAtMost(s[i + 1..], sep, max - 1)
  {
  }

  /** The first cut joins back when the cuts after it do. */
  lemma SplitJoinStep(s: String, sep: char, max: nat, i: nat)
    requires IndexOf(s, sep) == Some(i) && max > 0
    requires JoinsBack(s[i + 1..], sep, max - 1)
    ensures JoinsBack(s, sep, max)
  {
    SplitStep(s, sep, max, i);
    JoinAround(s, i, sep, SplitAtMost(s, sep, max), SplitAtMost(s[i + 1..], sep, max - 1));
  }

  /** Without a separator or any cut left, the text is one piece. */
  lemma SplitWhole(s: String, sep: char, max: nat)
    requires IndexOf(s, sep).None? || max == 0
    ensures SplitAtMost(s, sep, max) == [s]
  {
  }

  /** A text with no separator, then a separator, is the first piece of a
      cut; the rest is cut with one cut fewer. */
  lemma SplitAtFirst(head: String, sep: char, tail: String, max: nat)
    requires sep !in head && max > 0
    ensures SplitAtMost(head + [sep] + tail, sep, max) == [head] + SplitAtMost(tail, sep, max - 1)
  {
    var s := head + [sep] + tail;
    var i := IndexOf(s, sep).value;
    assert s[|head|] == sep;
    assert s[..i] == head;
    assert s[i + 1..] == tail;
  }

  /** Pieces that are the text before a separator followed by pieces that
      join to the text after it join to the whole text. */
  lemma JoinAround(s: String, i: nat, sep: char, pieces: seq<String>, rest: seq<String>)
    requires i < |s| && s[i] == sep && |rest| >= 1
    requires pieces == [s[..i]] + rest && Join(rest, sep) == s[i + 1..]
    ensures Join(pieces, sep) == s
  {
    JoinCons(s[..i], rest, sep);
    CutAround(s, i);
  }

  /** A string is the text before a position, the character there and the
      text after it. */
  lemma CutAround(s: String, i: nat)
    requires i < |s|
    ensures s[..i] + [s[i]] + s[i + 1..] == s
  {
  }

  /** Joining a piece in front of others puts a separator between. */
  lemma JoinCons(head: String, rest: seq<String>, sep: char)
    requires |rest| >= 1
    ensures Join([head] + rest, sep) == head + [sep] + Join(rest, sep)
  {
    assert ([head] + rest)[1..] == rest;
  }
}
