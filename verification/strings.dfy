/** The string operations the header's initials rely on: JavaScript's
    `String.prototype.split` with a one-character separator, dropping the
    empty pieces (`filter(Boolean)`), and ASCII `toUpperCase`. */
module Strings {
  import Seqs

  /** How many times `c` occurs in `s`. */
  function Occurrences(s: string, c: char): nat
    decreases |s|
  {
    if |s| == 0 then 0 else (if s[0] == c then 1 else 0) + Occurrences(s[1..], c)
  }

  /** The pieces of `s` between occurrences of `sep`, as `s.split(sep)`
      returns them: one more piece than there are separators, empty pieces
      included (`"".split(" ")` is `[""]`, `" a".split(" ")` is `["", "a"]`). */
  function Split(s: string, sep: char): (pieces: seq<string>)
    ensures |pieces| == Occurrences(s, sep) + 1
    ensures forall piece :: piece in pieces ==> sep !in piece
    decreases |s|
  {
    if |s| == 0 then [""]
    else
      var rest := Split(s[1..], sep);
      assert s == [s[0]] + s[1..];
      assert rest[0] in rest;
      if s[0] == sep then [""] + rest
      else [[s[0]] + rest[0]] + rest[1..]
  }

  /** The pieces glued back together with `sep` between neighbours
      (`pieces.join(sep)`). */
  function Join(pieces: seq<string>, sep: char): string
    decreases |pieces|
  {
    if |pieces| == 0 then ""
    else if |pieces| == 1 then pieces[0]
    else pieces[0] + [sep] + Join(pieces[1..], sep)
  }

  /** Extending the first piece extends the joined string by the same prefix. */
  lemma JoinExtendFirst(c: string, pieces: seq<string>, sep: char)
    requires |pieces| > 0
    ensures Join([c + pieces[0]] + pieces[1..], sep) == c + Join(pieces, sep)
  {
    var q := [c + pieces[0]] + pieces[1..];
    if |pieces| > 1 {
      assert q[1..] == pieces[1..];
    }
  }

  /** How a split begins: a leading separator ends an empty first piece,
      any other character starts the first piece of the rest. */
  lemma SplitCons(s: string, sep: char)
    requires |s| > 0
    ensures s[0] == sep ==> Split(s, sep) == [""] + Split(s[1..], sep)
    ensures s[0] != sep ==>
      Split(s, sep) == [[s[0]] + Split(s[1..], sep)[0]] + Split(s[1..], sep)[1..]
  {
  }

  /** Joining the pieces of a split gives the original string back. */
  lemma {:induction false} SplitThenJoin(s: string, sep: char)
    ensures Join(Split(s, sep), sep) == s
    decreases |s|
  {
    if |s| > 0 {
      var rest := Split(s[1..], sep);
      SplitThenJoin(s[1..], sep);
      if s[0] == sep {
        assert Split(s, sep) == [""] + rest;
        assert ([""] + rest)[1..] == rest;
      } else {
        assert Split(s, sep) == [[s[0]] + rest[0]] + rest[1..];
        JoinExtendFirst([s[0]], rest, sep);
        assert s == [s[0]] + s[1..];
      }
    }
  }

  /** A string free of the separator is a single piece. */
  lemma {:induction false} SplitWithoutSeparator(p: string, sep: char)
    requires sep !in p
    ensures Split(p, sep) == [p]
    decreases |p|
  {
    if |p| > 0 {
      assert sep !in p[1..];
      SplitWithoutSeparator(p[1..], sep);
      assert p == [p[0]] + p[1..];
    }
  }

  /** A separator-free prefix followed by a separator becomes the first piece. */
  lemma {:induction false} SplitAfterPiece(p: string, t: string, sep: char)
    requires sep !in p
    ensures Split(p + [sep] + t, sep) == [p] + Split(t, sep)
    decreases |p|
  {
    var s := p + [sep] + t;
    SplitCons(s, sep);
    if |p| == 0 {
      assert s[0] == sep && s[1..] == t;
    } else {
      var q := p[1..];
      assert s[0] == p[0] && p[0] in p;
      assert s[1..] == q + [sep] + t;
      assert sep !in q by {
        forall i | 0 <= i < |q| ensures q[i] != sep { assert q[i] == p[i + 1]; }
      }
      SplitAfterPiece(q, t, sep);
      var rest := Split(s[1..], sep);
      assert rest == [q] + Split(t, sep);
      assert rest[0] == q && rest[1..] == Split(t, sep);
      assert [p[0]] + q == p;
    }
  }

  /** Joining at least two pieces puts the separator after the first. */
  lemma JoinCons(pieces: seq<string>, sep: char)
    requires |pieces| > 1
    ensures Join(pieces, sep) == pieces[0] + [sep] + Join(pieces[1..], sep)
  {
  }

  /** Splitting a join of separator-free pieces gives the pieces back. */
  lemma {:induction false} JoinThenSplit(pieces: seq<string>, sep: char)
    requires |pieces| > 0
    requires forall piece :: piece in pieces ==> sep !in piece
    ensures Split(Join(pieces, sep), sep) == pieces
    decreases |pieces|
  {
    var first := pieces[0];
    assert first in pieces;
    if |pieces| == 1 {
      SplitWithoutSeparator(first, sep);
    } else {
      var others := pieces[1..];
      forall piece | piece in others
        ensures sep !in piece
      {
        var i :| 0 <= i < |others| && others[i] == piece;
        assert pieces[i + 1] == piece;
      }
      JoinThenSplit(others, sep);
      JoinCons(pieces, sep);
      SplitAfterPiece(first, Join(others, sep), sep);
      assert pieces == [first] + others;
    }
  }

  /** The test `filter(Boolean)` applies to a string: it is truthy iff non-empty. */
  predicate IsNonEmpty(t: string)
  {
    |t| > 0
  }

  predicate IsNotSpace(c: char)
  {
    c != ' '
  }

  /** The space-separated words of `s`: `s.split(' ').filter(Boolean)`. */
  function Tokens(s: string): (tokens: seq<string>)
    ensures forall t :: t in tokens ==> |t| > 0 && ' ' !in t
    ensures |tokens| <= Occurrences(s, ' ') + 1
  {
    Seqs.Filter(IsNonEmpty, Split(s, ' '))
  }

  /** All the pieces written one after another. */
  function Concat(pieces: seq<string>): string
    decreases |pieces|
  {
    if |pieces| == 0 then "" else pieces[0] + Concat(pieces[1..])
  }

  lemma {:induction false} ConcatSkipsEmpty(pieces: seq<string>)
    ensures Concat(Seqs.Filter(IsNonEmpty, pieces)) == Concat(pieces)
    decreases |pieces|
  {
    if |pieces| > 0 {
      ConcatSkipsEmpty(pieces[1..]);
      var tail := Seqs.Filter(IsNonEmpty, pieces[1..]);
      if IsNonEmpty(pieces[0]) {
        var r := Seqs.Filter(IsNonEmpty, pieces);
        assert r == [pieces[0]] + tail && r[1..] == tail;
      } else {
        assert Seqs.Filter(IsNonEmpty, pieces) == tail;
      }
    }
  }

  lemma {:induction false} ConcatSplit(s: string)
    ensures Concat(Split(s, ' ')) == Seqs.Filter(IsNotSpace, s)
    decreases |s|
  {
    if |s| > 0 {
      var rest := Split(s[1..], ' ');
      ConcatSplit(s[1..]);
      if s[0] == ' ' {
        assert Split(s, ' ') == [""] + rest;
        assert ([""] + rest)[1..] == rest;
      } else {
        var pieces := Split(s, ' ');
        assert pieces == [[s[0]] + rest[0]] + rest[1..];
        assert pieces[1..] == rest[1..];
        assert Concat(rest) == rest[0] + Concat(rest[1..]);
      }
    }
  }

  /** The words of `s`, written one after another, are `s` with its spaces
      removed: splitting and dropping empty pieces loses exactly the spaces. */
  lemma TokensSpellNonSpaces(s: string)
    ensures Concat(Tokens(s)) == Seqs.Filter(IsNotSpace, s)
  {
    ConcatSkipsEmpty(Split(s, ' '));
    ConcatSplit(s);
  }

  /** A string has no words exactly when every character is a space. */
  lemma TokensEmptyIff(s: string)
    ensures Tokens(s) == [] <==> forall i :: 0 <= i < |s| ==> s[i] == ' '
  {
    var tokens := Tokens(s);
    TokensSpellNonSpaces(s);
    if tokens == [] {
      forall i | 0 <= i < |s|
        ensures s[i] == ' '
      {
        assert s[i] in s;
        assert s[i] !in Seqs.Filter(IsNotSpace, s);
      }
    } else {
      assert tokens[0] in tokens;
      assert Concat(tokens) == tokens[0] + Concat(tokens[1..]);
      var c := Concat(tokens)[0];
      assert c in Seqs.Filter(IsNotSpace, s);
      var i :| 0 <= i < |s| && s[i] == c;
      assert s[i] != ' ';
    }
  }

  /** The first character of every (non-empty) piece, in order. */
  function Firsts(pieces: seq<string>): (r: string)
    requires forall t :: t in pieces ==> |t| > 0
    ensures |r| == |pieces|
    ensures forall i :: 0 <= i < |pieces| ==> r[i] == pieces[i][0]
    decreases |pieces|
  {
    if |pieces| == 0 then ""
    else
      assert pieces[0] in pieces;
      assert forall t :: t in pieces[1..] ==> t in pieces;
      [pieces[0][0]] + Firsts(pieces[1..])
  }

  /** The characters of `s` that begin a word: a non-space character at the
      start or right after a space. `afterSpace` says whether the character
      before `s` was a space (or there was none). This scan over characters
      is an independent description of what the first letters of the
      tokens are. */
  function WordStarts(s: string, afterSpace: bool): (r: string)
    ensures forall c :: c in r ==> c != ' ' && c in s
    decreases |s|
  {
    if |s| == 0 then ""
    else (if s[0] != ' ' && afterSpace then [s[0]] else []) + WordStarts(s[1..], s[0] == ' ')
  }

  lemma {:induction false} SplitWordStarts(s: string)
    ensures Firsts(Seqs.Filter(IsNonEmpty, Split(s, ' '))) == WordStarts(s, true)
    ensures |Split(s, ' ')| > 0
    ensures Firsts(Seqs.Filter(IsNonEmpty, Split(s, ' ')[1..])) == WordStarts(s, false)
    decreases |s|
  {
    if |s| > 0 {
      var rest := Split(s[1..], ' ');
      SplitWordStarts(s[1..]);
      SplitCons(s, ' ');
      var pieces := Split(s, ' ');
      if s[0] == ' ' {
        assert pieces[1..] == rest;
        Seqs.FilterCons(IsNonEmpty, "", rest);
        assert WordStarts(s, true) == WordStarts(s[1..], true);
        assert WordStarts(s, false) == WordStarts(s[1..], true);
      } else {
        var head := [s[0]] + rest[0];
        var tail := Seqs.Filter(IsNonEmpty, rest[1..]);
        assert pieces[1..] == rest[1..];
        Seqs.FilterCons(IsNonEmpty, head, rest[1..]);
        assert Firsts([head] + tail) == [s[0]] + Firsts(tail) by {
          assert ([head] + tail)[1..] == tail;
        }
        assert WordStarts(s, true) == [s[0]] + WordStarts(s[1..], false);
        assert WordStarts(s, false) == WordStarts(s[1..], false);
      }
    }
  }

  /** The first letters of the words of `s` are its word-start characters. */
  lemma TokenFirsts(s: string)
    ensures Firsts(Tokens(s)) == WordStarts(s, true)
  {
    SplitWordStarts(s);
  }

  /** ASCII `toUpperCase` of one character. */
  function UpperChar(c: char): (u: char)
    ensures 'a' <= c <= 'z' ==> 'A' <= u <= 'Z' && u as int + 32 == c as int
    ensures !('a' <= c <= 'z') ==> u == c
  {
    if 'a' <= c <= 'z' then (c as int - 32) as char else c
  }

  /** ASCII `toUpperCase` of a string, character by character. */
  function Upper(s: string): (u: string)
    ensures |u| == |s|
    ensures forall i :: 0 <= i < |s| ==> u[i] == UpperChar(s[i])
  {
    seq(|s|, i requires 0 <= i < |s| => UpperChar(s[i]))
  }
}
