/**
 * The C library string functions the server relies on, stated over `seq<char>`:
 * `strlen`/`strcpy` (the text before the first NUL), `strstr` (substring search),
 * `strtok` with the delimiter " " (runs of spaces separate tokens, empty tokens are
 * dropped) and the truncation `snprintf` applies to a fixed-size buffer.
 */
module CStrings {

  const NUL: char := '\0'

  /** The C string held in a buffer: every character before the first NUL. */
  function CString(buf: seq<char>): (s: string)
    ensures s <= buf
    ensures NUL !in s
    ensures |s| < |buf| ==> buf[|s|] == NUL
  {
    if buf == [] || buf[0] == NUL then [] else [buf[0]] + CString(buf[1..])
  }

  /** Writing a terminating NUL behind a buffer does not change the C string it holds. */
  lemma {:induction false} CStringTerminated(buf: seq<char>)
    ensures CString(buf + [NUL]) == CString(buf)
  {
    if buf != [] && buf[0] != NUL {
      assert (buf + [NUL])[1..] == buf[1..] + [NUL];
      CStringTerminated(buf[1..]);
    }
  }

  /** A string without NUL is its own C string. */
  lemma {:induction false} CStringOfPlain(s: string)
    requires NUL !in s
    ensures CString(s) == s
  {
    if s != [] {
      CStringOfPlain(s[1..]);
    }
  }

  /** `pat` starts at position `i` of `s`. */
  ghost predicate OccursAt(s: string, pat: string, i: nat)
  {
    i + |pat| <= |s| && s[i..i + |pat|] == pat
  }

  /** `strstr(s, pat) != NULL`: `pat` occurs somewhere in `s`. */
  predicate Contains(s: string, pat: string)
    decreases |s|
  {
    |pat| <= |s| && (s[..|pat|] == pat || Contains(s[1..], pat))
  }

  /** The search agrees with the plain definition of "occurs somewhere". */
  lemma {:induction false} ContainsIff(s: string, pat: string)
    ensures Contains(s, pat) <==> exists i: nat :: OccursAt(s, pat, i)
    decreases |s|
  {
    if |pat| <= |s| {
      if s[..|pat|] == pat {
        assert OccursAt(s, pat, 0);
      } else {
        ContainsIff(s[1..], pat);
        if Contains(s[1..], pat) {
          var i: nat :| OccursAt(s[1..], pat, i);
          assert s[i + 1..i + 1 + |pat|] == s[1..][i..i + |pat|];
          assert OccursAt(s, pat, i + 1);
        } else {
          forall i: nat | OccursAt(s, pat, i)
            ensures false
          {
            if i > 0 {
              assert s[1..][i - 1..i - 1 + |pat|] == s[i..i + |pat|];
              assert OccursAt(s[1..], pat, i - 1);
            }
          }
        }
      }
    } else {
      forall i: nat | OccursAt(s, pat, i)
        ensures false
      {
      }
    }
  }

  /** The run of non-space characters at the start of `s`. */
  function Word(s: string): (w: string)
    ensures w <= s
    ensures ' ' !in w
    ensures |w| < |s| ==> s[|w|] == ' '
  {
    if s == [] || s[0] == ' ' then [] else [s[0]] + Word(s[1..])
  }

  /**
   * The tokens successive calls of `strtok(.., " ")` return on `s`: maximal runs of
   * non-space characters, in order; leading, trailing and repeated spaces yield none.
   */
  function Tokens(s: string): (ts: seq<string>)
    ensures forall i :: 0 <= i < |ts| ==> ts[i] != [] && ' ' !in ts[i]
    decreases |s|
  {
    if s == [] then []
    else if s[0] == ' ' then Tokens(s[1..])
    else
      var w := Word(s);
      [w] + Tokens(s[|w|..])
  }

  /** The first token of a text is not changed by what follows a space behind it. */
  lemma {:induction false} WordBeforeSpace(a: string, t: string)
    requires t != [] && t[0] == ' '
    ensures Word(a + t) == Word(a)
  {
    if a != [] && a[0] != ' ' {
      assert (a + t)[1..] == a[1..] + t;
      WordBeforeSpace(a[1..], t);
    }
  }

  /** A text without spaces is a single token, and an empty text has none. */
  lemma TokensOfPlain(s: string)
    requires ' ' !in s
    ensures Tokens(s) == if s == [] then [] else [s]
  {
    if s != [] {
      WordOfPlain(s);
      assert s[|s|..] == [];
    }
  }

  /** A text that starts with a space has the tokens of what follows that space. */
  lemma TokensSkipSpace(s: string)
    requires s != [] && s[0] == ' '
    ensures Tokens(s) == Tokens(s[1..])
  {
  }

  /** A text that starts with a non-space starts with its first word as a token. */
  lemma TokensTakeWord(s: string)
    requires s != [] && s[0] != ' '
    ensures Tokens(s) == [Word(s)] + Tokens(s[|Word(s)|..])
  {
  }

  /**
   * A space separates tokens: the tokens of `a + " " + b` are those of `a` followed by
   * those of `b`. With `TokensOfPlain` this fixes `Tokens` on every text.
   */
  lemma TokensSplitAtSpace(a: string, b: string)
    ensures Tokens(a + " " + b) == Tokens(a) + Tokens(b)
  {
    var t := " " + b;
    assert a + " " + b == a + t;
    assert t[1..] == b;
    TokensSkipSpace(t);
    TokensBeforeSpace(a, t);
  }

  /** The tokens of `a + t`, where `t` starts with a space, are those of `a` followed by those of `t`. */
  lemma {:induction false} TokensBeforeSpace(a: string, t: string)
    requires t != [] && t[0] == ' '
    ensures Tokens(a + t) == Tokens(a) + Tokens(t)
    decreases |a|
  {
    if a == [] {
      assert a + t == t;
    } else if a[0] == ' ' {
      TokensBeforeSpace(a[1..], t);
      SplitAfterSpace(a, t);
    } else {
      TokensBeforeSpace(a[|Word(a)|..], t);
      SplitAfterWord(a, t);
    }
  }

  /** The step of `TokensBeforeSpace` for a text that starts with a space. */
  lemma SplitAfterSpace(a: string, t: string)
    requires a != [] && a[0] == ' '
    requires Tokens(a[1..] + t) == Tokens(a[1..]) + Tokens(t)
    ensures Tokens(a + t) == Tokens(a) + Tokens(t)
  {
    assert (a + t)[0] == ' ';
    DropFromAppend(a, t, 1);
    TokensSkipSpace(a + t);
    TokensSkipSpace(a);
  }

  /** The step of `TokensBeforeSpace` for a text that starts with a word. */
  lemma SplitAfterWord(a: string, t: string)
    requires a != [] && a[0] != ' ' && t != [] && t[0] == ' '
    requires Tokens(a[|Word(a)|..] + t) == Tokens(a[|Word(a)|..]) + Tokens(t)
    ensures Tokens(a + t) == Tokens(a) + Tokens(t)
  {
    var w := Word(a);
    WordBeforeSpace(a, t);
    assert (a + t)[0] == a[0];
    TokensTakeWord(a + t);
    TokensTakeWord(a);
    DropFromAppend(a, t, |w|);
    AppendAssoc([w], Tokens(a[|w|..]), Tokens(t));
  }

  /** Dropping a prefix of `a` from `a + t`. */
  lemma DropFromAppend(a: string, t: string, n: nat)
    requires n <= |a|
    ensures (a + t)[n..] == a[n..] + t
  {
  }

  /** Concatenation of token lists is associative. */
  lemma AppendAssoc(x: seq<string>, y: seq<string>, z: seq<string>)
    ensures x + (y + z) == (x + y) + z
  {
  }

  /** Words joined by single spaces. */
  function JoinSpaced(ws: seq<string>): string
  {
    if ws == [] then [] else if |ws| == 1 then ws[0] else ws[0] + " " + JoinSpaced(ws[1..])
  }

  lemma {:induction false} WordOfSpaced(w: string, rest: string)
    requires ' ' !in w
    ensures Word(w + " " + rest) == w
  {
    if w != [] {
      assert (w + " " + rest)[1..] == w[1..] + " " + rest;
      WordOfSpaced(w[1..], rest);
    }
  }

  lemma {:induction false} WordOfPlain(w: string)
    requires ' ' !in w
    ensures Word(w) == w
  {
    if w != [] {
      WordOfPlain(w[1..]);
    }
  }

  /** Tokenising words joined by single spaces gives the words back. */
  lemma {:induction false} TokensOfJoinSpaced(ws: seq<string>)
    requires forall i :: 0 <= i < |ws| ==> ws[i] != [] && ' ' !in ws[i]
    ensures Tokens(JoinSpaced(ws)) == ws
  {
    if |ws| == 1 {
      var w := ws[0];
      WordOfPlain(w);
      assert w[|w|..] == [];
    } else if |ws| > 1 {
      var w, rest := ws[0], JoinSpaced(ws[1..]);
      var s := w + " " + rest;
      WordOfSpaced(w, rest);
      assert s[|w|..] == " " + rest;
      assert (" " + rest)[1..] == rest;
      TokensOfJoinSpaced(ws[1..]);
    }
  }

  /** What `snprintf` leaves of `s` in a buffer of `size` characters (room for the NUL). */
  function Truncate(s: string, size: nat): (r: string)
    requires size > 0
    ensures r <= s
    ensures |r| == if |s| < size then |s| else size - 1
  {
    if |s| < size then s else s[..size - 1]
  }
}
