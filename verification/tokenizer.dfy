/** The tokenizer of index.js: a fixed pipeline of string rewrites
    followed by a split on single spaces. */
module Tokenizer {
  import opened Text
  import opened Seqs

  /** True when no two consecutive characters of `s` are both whitespace. */
  predicate NoDoubleWhitespace(s: string) {
    forall i :: 0 <= i < |s| - 1 ==> !(IsWhitespace(s[i]) && IsWhitespace(s[i + 1]))
  }

  /** Every character of `s` has survived lowercasing, line-break
      replacement and punctuation stripping. */
  predicate Normalized(s: string) {
    forall i :: 0 <= i < |s| ==> !IsAsciiUpper(s[i]) && !IsLineBreak(s[i]) && !IsStripped(s[i])
  }

  /** What a token may hold: no capital letter, line break, stripped
      punctuation or space, and never two whitespace characters in a row. */
  predicate IsCleanToken(t: string) {
    Normalized(t) && ' ' !in t && NoDoubleWhitespace(t)
  }

  /** `s` with every whitespace character removed. */
  function NonWhitespace(s: string): string
  {
    if |s| == 0 then ""
    else if IsWhitespace(s[0]) then NonWhitespace(s[1..])
    else [s[0]] + NonWhitespace(s[1..])
  }

  // ---------------------------------------------------------------------
  // Step 1: lowercasing.

  function Lower(s: string): (r: string)
    ensures |r| == |s|
    ensures forall i :: 0 <= i < |r| ==> !IsAsciiUpper(r[i])
    ensures forall i :: 0 <= i < |s| && !IsAsciiUpper(s[i]) ==> r[i] == s[i]
    ensures forall i :: 0 <= i < |s| && IsAsciiUpper(s[i]) ==> r[i] as int == s[i] as int + 32
  {
    seq(|s|, i requires 0 <= i < |s| => ToLower(s[i]))
  }

  // ---------------------------------------------------------------------
  // Step 2: every CRLF, LF or CR becomes one space.

  function ReplaceLineBreaks(s: string): (r: string)
    ensures forall i :: 0 <= i < |r| ==> !IsLineBreak(r[i])
    ensures |r| <= |s|
    ensures |s| > 0 ==> |r| > 0
    ensures (forall i :: 0 <= i < |s| ==> !IsLineBreak(s[i])) ==> r == s
    ensures NonWhitespace(r) == NonWhitespace(s)
    decreases |s|
  {
    if |s| == 0 then ""
    else if |s| >= 2 && s[0] == '\r' && s[1] == '\n' then " " + ReplaceLineBreaks(s[2..])
    else if IsLineBreak(s[0]) then " " + ReplaceLineBreaks(s[1..])
    else [s[0]] + ReplaceLineBreaks(s[1..])
  }

  /** Every character of the result is a non-break character of the input or a space. */
  lemma {:induction false} LineBreakMembers(s: string)
    ensures forall c :: c in ReplaceLineBreaks(s) ==> (c in s && !IsLineBreak(c)) || c == ' '
    decreases |s|
  {
    if |s| >= 2 && s[0] == '\r' && s[1] == '\n' {
      LineBreakMembers(s[2..]);
      assert forall c :: c in s[2..] ==> c in s;
    } else if |s| > 0 {
      LineBreakMembers(s[1..]);
      assert forall c :: c in s[1..] ==> c in s;
    }
  }

  /** Each line-break unit of the source's pattern, CRLF included, becomes
      exactly one space, and any other character stays as it is. */
  lemma LineBreakUnits(c: char)
    ensures ReplaceLineBreaks("\r\n") == " "
    ensures ReplaceLineBreaks("\n") == " " && ReplaceLineBreaks("\r") == " "
    ensures !IsLineBreak(c) ==> ReplaceLineBreaks([c]) == [c]
  {
    assert "\r\n"[2..] == "";
    assert [c][1..] == "";
  }

  /** Replacing line breaks commutes with concatenation as long as the cut
      does not fall inside a CRLF pair. Together with `LineBreakUnits` this
      fixes the result: the text is rewritten one unit at a time. */
  lemma {:induction false} LineBreakConcat(u: string, v: string)
    requires !(|u| > 0 && u[|u| - 1] == '\r' && |v| > 0 && v[0] == '\n')
    ensures ReplaceLineBreaks(u + v) == ReplaceLineBreaks(u) + ReplaceLineBreaks(v)
    decreases |u|
  {
    if |u| == 0 {
      assert u + v == v;
    } else {
      var k := if |u| >= 2 && u[0] == '\r' && u[1] == '\n' then 2 else 1;
      var head := if IsLineBreak(u[0]) then " " else [u[0]];
      var a, b := ReplaceLineBreaks(u[k..]), ReplaceLineBreaks(v);
      assert ReplaceLineBreaks(u) == head + a;
      assert ReplaceLineBreaks(u + v) == head + ReplaceLineBreaks(u[k..] + v) by {
        var w := u + v;
        assert w[0] == u[0];
        if |u| >= 2 {
          assert w[1] == u[1];
        }
        DropConcat(u, v, k);
      }
      assert ReplaceLineBreaks(u[k..] + v) == a + b by {
        LineBreakConcat(u[k..], v);
      }
      ConcatAssoc(head, a, b);
    }
  }

  // ---------------------------------------------------------------------
  // Step 3: stripped punctuation is deleted (not replaced by a space).

  function StripPunctuation(s: string): (r: string)
    ensures forall i :: 0 <= i < |r| ==> !IsStripped(r[i])
    ensures |r| <= |s|
    ensures (forall i :: 0 <= i < |s| ==> !IsStripped(s[i])) ==> r == s
  {
    if |s| == 0 then ""
    else if IsStripped(s[0]) then StripPunctuation(s[1..])
    else [s[0]] + StripPunctuation(s[1..])
  }

  /** A character survives iff it occurs in the input and is not stripped. */
  lemma {:induction false} StripMembers(s: string)
    ensures forall c :: c in StripPunctuation(s) <==> c in s && !IsStripped(c)
    decreases |s|
  {
    if |s| > 0 {
      StripMembers(s[1..]);
      assert forall c :: c in s <==> c == s[0] || c in s[1..];
    }
  }

  /** Deleting punctuation commutes with concatenation: each character is
      kept or dropped on its own, and the survivors keep their order. */
  lemma {:induction false} StripConcat(s: string, t: string)
    ensures StripPunctuation(s + t) == StripPunctuation(s) + StripPunctuation(t)
    decreases |s|
  {
    if |s| == 0 {
      assert s + t == t;
    } else {
      assert (s + t)[0] == s[0];
      assert (s + t)[1..] == s[1..] + t;
      StripConcat(s[1..], t);
      if !IsStripped(s[0]) {
        assert [s[0]] + StripPunctuation(s[1..] + t)
            == ([s[0]] + StripPunctuation(s[1..])) + StripPunctuation(t);
      }
    }
  }

  /** Deleting punctuation and deleting whitespace may be done in either order. */
  lemma {:induction false} StripNonWhitespaceCommute(s: string)
    ensures NonWhitespace(StripPunctuation(s)) == StripPunctuation(NonWhitespace(s))
    decreases |s|
  {
    if |s| > 0 {
      StripNonWhitespaceCommute(s[1..]);
      if !IsStripped(s[0]) && !IsWhitespace(s[0]) {
        assert ([s[0]] + StripPunctuation(s[1..]))[1..] == StripPunctuation(s[1..]);
        assert ([s[0]] + NonWhitespace(s[1..]))[1..] == NonWhitespace(s[1..]);
      } else if !IsStripped(s[0]) {
        assert ([s[0]] + StripPunctuation(s[1..]))[1..] == StripPunctuation(s[1..]);
      } else if !IsWhitespace(s[0]) {
        assert ([s[0]] + NonWhitespace(s[1..]))[1..] == NonWhitespace(s[1..]);
      }
    }
  }

  // ---------------------------------------------------------------------
  // Step 4: every run of two or more whitespace characters becomes one space.

  /** Length of the whitespace run at the front of `s`. */
  function WhitespaceRun(s: string): (n: nat)
    ensures n <= |s|
    ensures forall i :: 0 <= i < n ==> IsWhitespace(s[i])
    ensures n < |s| ==> !IsWhitespace(s[n])
  {
    if |s| == 0 || !IsWhitespace(s[0]) then 0 else 1 + WhitespaceRun(s[1..])
  }

  function CollapseWhitespace(s: string): (r: string)
    ensures NoDoubleWhitespace(r)
    ensures |s| > 0 ==> |r| > 0 && (IsWhitespace(r[0]) <==> IsWhitespace(s[0]))
    ensures |r| <= |s|
    decreases |s|
  {
    if |s| == 0 then ""
    else
      var n := WhitespaceRun(s);
      if n >= 2 then " " + CollapseWhitespace(s[n..])
      else [s[0]] + CollapseWhitespace(s[1..])
  }

  /** Collapsing introduces no character except the space. */
  lemma {:induction false} CollapseMembers(s: string)
    ensures forall c :: c in CollapseWhitespace(s) ==> c in s || c == ' '
    decreases |s|
  {
    if |s| > 0 {
      var n := WhitespaceRun(s);
      if n >= 2 {
        CollapseMembers(s[n..]);
        assert forall c :: c in s[n..] ==> c in s;
      } else {
        CollapseMembers(s[1..]);
        assert forall c :: c in s[1..] ==> c in s;
      }
    }
  }

  /** Collapsing only rewrites whitespace: the other characters are kept, in order. */
  lemma {:induction false} CollapseKeepsNonWhitespace(s: string)
    ensures NonWhitespace(CollapseWhitespace(s)) == NonWhitespace(s)
    decreases |s|
  {
    if |s| > 0 {
      var n := WhitespaceRun(s);
      if n >= 2 {
        CollapseKeepsNonWhitespace(s[n..]);
        NonWhitespaceSkipsRun(s, n);
        assert (" " + CollapseWhitespace(s[n..]))[1..] == CollapseWhitespace(s[n..]);
      } else {
        CollapseKeepsNonWhitespace(s[1..]);
        assert ([s[0]] + CollapseWhitespace(s[1..]))[1..] == CollapseWhitespace(s[1..]);
      }
    }
  }

  /** A whitespace prefix contributes nothing to `NonWhitespace`. */
  lemma {:induction false} NonWhitespaceSkipsRun(s: string, n: nat)
    requires n <= |s|
    requires forall i :: 0 <= i < n ==> IsWhitespace(s[i])
    ensures NonWhitespace(s) == NonWhitespace(s[n..])
    decreases n
  {
    if n > 0 {
      NonWhitespaceSkipsRun(s[1..], n - 1);
      assert s[1..][n - 1..] == s[n..];
    }
  }

  /** A whitespace run stops at the first non-whitespace character, so
      appending text after a non-whitespace character does not lengthen it. */
  lemma {:induction false} WhitespaceRunConcat(u: string, v: string)
    requires |u| > 0
    requires !(IsWhitespace(u[|u| - 1]) && |v| > 0 && IsWhitespace(v[0]))
    ensures WhitespaceRun(u + v) == WhitespaceRun(u)
    decreases |u|
  {
    var w := u + v;
    if IsWhitespace(u[0]) {
      assert w[0] == u[0];
      if |u| == 1 {
        assert w[1..] == v;
      } else {
        assert w[1..] == u[1..] + v;
        WhitespaceRunConcat(u[1..], v);
      }
    } else {
      assert w[0] == u[0];
    }
  }

  /** A run of two or more whitespace characters collapses to one space. */
  lemma CollapseRun(w: string)
    requires |w| >= 2
    requires forall i :: 0 <= i < |w| ==> IsWhitespace(w[i])
    ensures CollapseWhitespace(w) == " "
  {
    var n := WhitespaceRun(w);
    assert n == |w| by {
      if n < |w| {
        assert false;
      }
    }
    assert w[n..] == "";
  }

  /** A character that does not start a run of two is kept as it is. */
  lemma CollapseSingle(c: char)
    ensures CollapseWhitespace([c]) == [c]
  {
    assert [c][1..] == "";
  }

  /** Collapsing commutes with concatenation when the cut does not fall
      between two whitespace characters. Together with `CollapseRun` and
      `CollapseSingle` this fixes the result: every maximal run of two or
      more whitespace characters becomes one space, and every other
      character is left where it is. */
  lemma {:induction false} CollapseConcat(u: string, v: string)
    requires !(|u| > 0 && IsWhitespace(u[|u| - 1]) && |v| > 0 && IsWhitespace(v[0]))
    ensures CollapseWhitespace(u + v) == CollapseWhitespace(u) + CollapseWhitespace(v)
    decreases |u|
  {
    if |u| == 0 {
      assert u + v == v;
    } else {
      var n := WhitespaceRun(u);
      var k := if n >= 2 then n else 1;
      var b := CollapseWhitespace(v);
      assert CollapseWhitespace(u[k..] + v) == CollapseWhitespace(u[k..]) + b by {
        CollapseConcat(u[k..], v);
      }
      assert WhitespaceRun(u + v) == n && (u + v)[0] == u[0] by {
        WhitespaceRunConcat(u, v);
      }
      DropConcat(u, v, k);
      if n >= 2 {
        ConcatAssoc(" ", CollapseWhitespace(u[n..]), b);
      } else {
        ConcatAssoc([u[0]], CollapseWhitespace(u[1..]), b);
      }
    }
  }

  /** Two words separated by a run of two or more whitespace characters end
      up separated by exactly one space. */
  lemma CollapseBetween(u: string, w: string, v: string)
    requires |u| > 0 && !IsWhitespace(u[|u| - 1])
    requires |v| > 0 && !IsWhitespace(v[0])
    requires |w| >= 2 && forall i :: 0 <= i < |w| ==> IsWhitespace(w[i])
    ensures CollapseWhitespace(u + w + v) == CollapseWhitespace(u) + " " + CollapseWhitespace(v)
  {
    var a, c := CollapseWhitespace(u), CollapseWhitespace(v);
    assert CollapseWhitespace(w + v) == " " + c by {
      CollapseConcat(w, v);
      CollapseRun(w);
    }
    assert CollapseWhitespace(u + w + v) == a + (" " + c) by {
      assert u + w + v == u + (w + v);
      CollapseConcat(u, w + v);
    }
    ConcatAssoc(a, " ", c);
  }

  /** Text that already has no whitespace run of length two is left alone. */
  lemma {:induction false} CollapseIdentity(s: string)
    requires NoDoubleWhitespace(s)
    ensures CollapseWhitespace(s) == s
    decreases |s|
  {
    if |s| > 0 {
      assert WhitespaceRun(s) < 2;
      CollapseIdentity(s[1..]);
      assert [s[0]] + s[1..] == s;
    }
  }

  // ---------------------------------------------------------------------
  // Step 5: `split(' ')`.

  function SplitOnSpace(s: string): (r: seq<string>)
    ensures |r| == Count(s, ' ') + 1
    ensures forall i :: 0 <= i < |r| ==> ' ' !in r[i]
    ensures Join(r) == s
    ensures |s| > 0 && s[0] != ' ' ==> |r[0]| > 0 && r[0][0] == s[0]
    decreases |s|
  {
    if |s| == 0 then [""]
    else if s[0] == ' ' then [""] + SplitOnSpace(s[1..])
    else
      var rest := SplitOnSpace(s[1..]);
      [[s[0]] + rest[0]] + rest[1..]
  }

  /** A piece with no space in it splits to itself. */
  lemma {:induction false} SplitPiece(t: string)
    requires ' ' !in t
    ensures SplitOnSpace(t) == [t]
    decreases |t|
  {
    if |t| > 0 {
      SplitPiece(t[1..]);
      assert [t[0]] + t[1..] == t;
    }
  }

  /** A leading space yields an empty first piece. */
  lemma SplitAfterSpace(u: string)
    ensures SplitOnSpace(" " + u) == [""] + SplitOnSpace(u)
  {
    assert (" " + u)[1..] == u;
  }

  /** Splitting `t + " " + u` cuts exactly at the space after `t`. */
  lemma {:induction false} SplitAfterPiece(t: string, u: string)
    requires ' ' !in t
    ensures SplitOnSpace(t + " " + u) == [t] + SplitOnSpace(u)
    decreases |t|
  {
    if |t| == 0 {
      assert t + " " + u == " " + u;
      SplitAfterSpace(u);
    } else {
      var w := t + " " + u;
      var rest := SplitOnSpace(w[1..]);
      assert rest[0] == t[1..] && rest[1..] == SplitOnSpace(u) by {
        assert ' ' !in t[1..] by {
          assert forall c :: c in t[1..] ==> c in t;
        }
        SplitAfterPiece(t[1..], u);
        assert w[1..] == t[1..] + " " + u;
      }
      assert SplitOnSpace(w) == [[t[0]] + rest[0]] + rest[1..] by {
        assert w[0] == t[0] && t[0] != ' ';
      }
      assert [t[0]] + t[1..] == t;
    }
  }

  /** The inverse round trip of `SplitOnSpace`: joining space-free pieces and
      splitting again gives the pieces back. */
  lemma {:induction false} JoinSplit(pieces: seq<string>)
    requires |pieces| >= 1
    requires forall i :: 0 <= i < |pieces| ==> ' ' !in pieces[i]
    ensures SplitOnSpace(Join(pieces)) == pieces
    decreases |pieces|
  {
    if |pieces| == 1 {
      SplitPiece(pieces[0]);
    } else {
      JoinSplit(pieces[1..]);
      SplitAfterPiece(pieces[0], Join(pieces[1..]));
      assert [pieces[0]] + pieces[1..] == pieces;
    }
  }

  /** Splitting cleaned text yields clean tokens: each piece is a run of
      the text, so it inherits the text's character properties. */
  lemma {:induction false} SplitKeepsClean(s: string)
    requires Normalized(s) && NoDoubleWhitespace(s)
    ensures forall i :: 0 <= i < |SplitOnSpace(s)| ==> IsCleanToken(SplitOnSpace(s)[i])
    decreases |s|
  {
    if |s| > 0 {
      assert Normalized(s[1..]) && NoDoubleWhitespace(s[1..]);
      SplitKeepsClean(s[1..]);
      if s[0] != ' ' {
        var rest := SplitOnSpace(s[1..]);
        var p := [s[0]] + rest[0];
        assert IsCleanToken(rest[0]);
        forall i | 0 <= i < |p| - 1
          ensures !(IsWhitespace(p[i]) && IsWhitespace(p[i + 1]))
        {
          if i > 0 {
            assert p[i] == rest[0][i - 1] && p[i + 1] == rest[0][i];
          } else {
            assert p[1] == s[1];
          }
        }
        forall i | 0 <= i < |p|
          ensures !IsAsciiUpper(p[i]) && !IsLineBreak(p[i]) && !IsStripped(p[i])
        {
          if i > 0 {
            assert p[i] == rest[0][i - 1];
          }
        }
        assert IsCleanToken(p);
      }
    }
  }

  // ---------------------------------------------------------------------
  // The whole tokenizer.

  /** The text that is split: the input after steps 1 to 4. */
  function Normalize(s: string): string
  {
    CollapseWhitespace(StripPunctuation(ReplaceLineBreaks(Lower(s))))
  }

  lemma NormalizeProperties(s: string)
    ensures Normalized(Normalize(s)) && NoDoubleWhitespace(Normalize(s))
    ensures forall i :: 0 <= i < |SplitOnSpace(Normalize(s))| ==> IsCleanToken(SplitOnSpace(Normalize(s))[i])
  {
    var a := Lower(s);
    var b := ReplaceLineBreaks(a);
    var c := StripPunctuation(b);
    var d := CollapseWhitespace(c);
    LineBreakMembers(a);
    StripMembers(b);
    CollapseMembers(c);
    forall i | 0 <= i < |d|
      ensures !IsAsciiUpper(d[i]) && !IsLineBreak(d[i]) && !IsStripped(d[i])
    {
      assert d[i] in d;
      if d[i] != ' ' {
        assert d[i] in c && d[i] in b;
        assert d[i] in a;
      }
    }
    SplitKeepsClean(d);
  }

  function Tokenize(s: string): (r: seq<string>)
    ensures r == [] <==> |s| == 0
    ensures forall i :: 0 <= i < |r| ==> IsCleanToken(r[i])
    ensures |s| > 0 ==> Join(r) == Normalize(s)
  {
    NormalizeProperties(s);
    if |s| == 0 then [] else SplitOnSpace(Normalize(s))
  }

  /** Apart from whitespace, the tokens hold exactly the lowercased input
      with the stripped punctuation deleted, in input order; so punctuation
      between two words glues them together ("good.bad" gives "goodbad"). */
  lemma TokenizeKeepsContent(s: string)
    ensures NonWhitespace(Join(Tokenize(s))) == StripPunctuation(NonWhitespace(Lower(s)))
  {
    if |s| > 0 {
      var b := ReplaceLineBreaks(Lower(s));
      CollapseKeepsNonWhitespace(StripPunctuation(b));
      StripNonWhitespaceCommute(b);
    }
  }

  /** Re-tokenizing the tokens joined by spaces gives the same tokens, except
      when the tokens are the single empty string (input made only of
      stripped punctuation): that joins to "", which tokenizes to []. */
  lemma TokenizeIdempotent(s: string)
    ensures Tokenize(s) != [""] ==> Tokenize(Join(Tokenize(s))) == Tokenize(s)
    ensures Tokenize(s) == [""] ==> Tokenize(Join(Tokenize(s))) == []
  {
    var ts := Tokenize(s);
    if |s| > 0 && ts != [""] {
      NormalizeProperties(s);
      TokenizeNormalized(Join(ts));
    }
  }

  /** Text that is already normalized is only split. */
  lemma TokenizeNormalized(s: string)
    requires |s| > 0 && Normalized(s) && NoDoubleWhitespace(s)
    ensures Tokenize(s) == SplitOnSpace(s)
  {
    assert Lower(s) == s;
    assert ReplaceLineBreaks(s) == s;
    assert StripPunctuation(s) == s;
    CollapseIdentity(s);
  }

  /** An input made only of stripped punctuation is one empty token. */
  lemma PunctuationOnlyIsOneEmptyToken()
    ensures Tokenize("!!!") == [""]
    ensures Tokenize(Join(Tokenize("!!!"))) == []
  {
    assert Lower("!!!") == "!!!";
    assert ReplaceLineBreaks("!!!") == "!!!";
    assert StripPunctuation("!!!") == "";
  }
}
