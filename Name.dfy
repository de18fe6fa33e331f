/** Display names (src/domain/Name.ts): a `Name` is a string with its edge
    whitespace trimmed and every inner run of whitespace collapsed to one
    plain space. The class only exposes `Name.of`, so every `Name` value is in
    that normal form; the model makes this a subset type. */
module Names {

  /** The characters JavaScript's `String.prototype.trim` removes and the
      regular-expression class `\s` matches: the ECMAScript WhiteSpace and
      LineTerminator code points (the two sets are the same). */
  predicate IsSpace(c: char) {
    || c == '\t' || c == '\n' || c == '\U{000B}' || c == '\U{000C}' || c == '\r'
    || c == ' ' || c == '\U{00A0}' || c == '\U{1680}'
    || ('\U{2000}' <= c <= '\U{200A}')
    || c == '\U{2028}' || c == '\U{2029}' || c == '\U{202F}' || c == '\U{205F}'
    || c == '\U{3000}' || c == '\U{FEFF}'
  }

  predicate AllSpace(s: string) {
    forall i :: 0 <= i < |s| ==> IsSpace(s[i])
  }

  /** No whitespace at either end. */
  predicate NoEdgeSpace(s: string) {
    s == [] || (!IsSpace(s[0]) && !IsSpace(s[|s| - 1]))
  }

  /** The only whitespace character present is the plain space. */
  predicate OnlyPlainSpaces(s: string) {
    forall i :: 0 <= i < |s| && IsSpace(s[i]) ==> s[i] == ' '
  }

  /** No two adjacent whitespace characters. */
  predicate NoDoubleSpace(s: string) {
    forall i :: 0 <= i < |s| - 1 ==> !IsSpace(s[i]) || !IsSpace(s[i + 1])
  }

  predicate IsNormal(s: string) {
    NoEdgeSpace(s) && OnlyPlainSpaces(s) && NoDoubleSpace(s)
  }

  type Name = s: string | IsNormal(s) witness ""

  /** The non-whitespace characters of `s`, in order. */
  function NonSpace(s: string): string {
    if s == [] then [] else (if IsSpace(s[0]) then [] else [s[0]]) + NonSpace(s[1..])
  }

  /** What a whitespace run is replaced by, character for character. */
  function Plain(c: char): char {
    if IsSpace(c) then ' ' else c
  }

  lemma {:induction false} NonSpaceAppend(a: string, b: string)
    ensures NonSpace(a + b) == NonSpace(a) + NonSpace(b)
  {
    if a == [] {
      assert a + b == b;
    } else {
      assert (a + b)[0] == a[0];
      assert (a + b)[1..] == a[1..] + b;
      NonSpaceAppend(a[1..], b);
    }
  }

  /** `s.trimStart()` */
  function TrimStart(s: string): (r: string)
    ensures |r| <= |s| && r == s[|s| - |r|..]
    ensures r == [] || !IsSpace(r[0])
    ensures AllSpace(s[..|s| - |r|])
    ensures r != [] ==> r[|r| - 1] == s[|s| - 1]
    ensures r == [] ==> AllSpace(s)
  {
    if s != [] && IsSpace(s[0]) then
      var r := TrimStart(s[1..]);
      TrimStartStep(s, r);
      r
    else s
  }

  /** Dropping one leading whitespace character before trimming the rest. */
  lemma TrimStartStep(s: string, r: string)
    requires s != [] && IsSpace(s[0])
    requires |r| <= |s| - 1 && r == s[1..][|s| - 1 - |r|..]
    requires AllSpace(s[1..][..|s| - 1 - |r|])
    requires r != [] ==> r[|r| - 1] == s[1..][|s| - 2]
    requires r == [] ==> AllSpace(s[1..])
    ensures r == s[|s| - |r|..]
    ensures AllSpace(s[..|s| - |r|])
    ensures r != [] ==> r[|r| - 1] == s[|s| - 1]
    ensures r == [] ==> AllSpace(s)
  {
    assert s[1..][|s| - 1 - |r|..] == s[|s| - |r|..];
    assert forall i :: 1 <= i < |s| - |r| ==> s[i] == s[1..][..|s| - 1 - |r|][i - 1];
    assert forall i :: 1 <= i < |s| ==> s[i] == s[1..][i - 1];
  }

  /** `s.trimEnd()` */
  function TrimEnd(s: string): (r: string)
    ensures |r| <= |s| && r == s[..|r|]
    ensures r == [] || !IsSpace(r[|r| - 1])
    ensures AllSpace(s[|r|..])
  {
    if s != [] && IsSpace(s[|s| - 1]) then TrimEnd(s[..|s| - 1]) else s
  }

  /** `s.trim()`: both ends trimmed; empty exactly when `s` is all whitespace. */
  function Trim(s: string): (r: string)
    ensures NoEdgeSpace(r)
    ensures r == [] <==> AllSpace(s)
  {
    var t := TrimStart(s);
    var r := TrimEnd(t);
    assert r != [] ==> r[0] == t[0];
    assert t == [] ==> s[..|s|] == s;
    r
  }

  /** `s.replaceAll(/\s+/g, ' ')`: each maximal whitespace run becomes one
      plain space, and every other character is kept in order. */
  function Collapse(s: string): (r: string)
    ensures OnlyPlainSpaces(r) && NoDoubleSpace(r)
    ensures r == [] <==> s == []
    ensures s != [] ==> r[0] == Plain(s[0]) && r[|r| - 1] == Plain(s[|s| - 1])
  {
    if s == [] then []
    else if IsSpace(s[0]) then
      var t := TrimStart(s[1..]);
      var c := Collapse(t);
      RunThenRest(s);
      ConsCollapsed(' ', c);
      [' '] + c
    else
      var c := Collapse(s[1..]);
      ConsCollapsed(s[0], c);
      [s[0]] + c
  }

  /** Putting one character in front of a collapsed string keeps it
      collapsed, unless a space lands next to another whitespace. */
  lemma ConsCollapsed(x: char, c: string)
    requires OnlyPlainSpaces(c) && NoDoubleSpace(c)
    requires IsSpace(x) ==> x == ' ' && (c == [] || !IsSpace(c[0]))
    ensures OnlyPlainSpaces([x] + c) && NoDoubleSpace([x] + c)
  {
    var r := [x] + c;
    assert forall i :: 0 <= i < |c| ==> r[i + 1] == c[i];
  }

  /** After a leading whitespace run, what remains ends where `s` ends; if
      nothing remains, `s` ends in whitespace. */
  lemma RunThenRest(s: string)
    requires s != [] && IsSpace(s[0])
    ensures var t := TrimStart(s[1..]);
            (t != [] ==> t[|t| - 1] == s[|s| - 1]) && (t == [] ==> IsSpace(s[|s| - 1]))
  {
    if |s| > 1 {
      assert s[1..][|s| - 2] == s[|s| - 1];
    }
  }

  /** `Name.of(s).get`: the normal form of `s` (the subset type), empty
      exactly when `s` is empty or all whitespace. */
  function Of(s: string): (n: Name)
    ensures n == [] <==> AllSpace(s)
  {
    Collapse(Trim(s))
  }

  lemma {:induction false} TrimStartKeepsNonSpace(s: string)
    ensures NonSpace(TrimStart(s)) == NonSpace(s)
  {
    if s != [] && IsSpace(s[0]) {
      TrimStartKeepsNonSpace(s[1..]);
    }
  }

  lemma {:induction false} TrimEndKeepsNonSpace(s: string)
    ensures NonSpace(TrimEnd(s)) == NonSpace(s)
    decreases |s|
  {
    if s != [] && IsSpace(s[|s| - 1]) {
      var init := s[..|s| - 1];
      assert init + [s[|s| - 1]] == s;
      NonSpaceAppend(init, [s[|s| - 1]]);
      TrimEndKeepsNonSpace(init);
    }
  }

  lemma {:induction false} CollapseKeepsNonSpace(s: string)
    ensures NonSpace(Collapse(s)) == NonSpace(s)
    decreases |s|
  {
    if s != [] {
      if IsSpace(s[0]) {
        var t := TrimStart(s[1..]);
        CollapseKeepsNonSpace(t);
        TrimStartKeepsNonSpace(s[1..]);
        assert ([' '] + Collapse(t))[1..] == Collapse(t);
      } else {
        CollapseKeepsNonSpace(s[1..]);
        assert ([s[0]] + Collapse(s[1..]))[1..] == Collapse(s[1..]);
      }
    }
  }

  /** `Name.of` keeps every non-whitespace character, in order. */
  lemma OfKeepsNonSpace(s: string)
    ensures NonSpace(Of(s)) == NonSpace(s)
  {
    TrimStartKeepsNonSpace(s);
    TrimEndKeepsNonSpace(TrimStart(s));
    CollapseKeepsNonSpace(Trim(s));
  }

  /** A string in normal form is left as it is by `Collapse`. */
  lemma {:induction false} CollapseKeepsNormal(s: string)
    requires OnlyPlainSpaces(s) && NoDoubleSpace(s)
    ensures Collapse(s) == s
  {
    if s != [] {
      assert OnlyPlainSpaces(s[1..]) && NoDoubleSpace(s[1..]) by {
        assert forall i :: 0 <= i < |s| - 1 ==> s[1..][i] == s[i + 1];
      }
      CollapseKeepsNormal(s[1..]);
      if IsSpace(s[0]) {
        assert s[1..] == [] || !IsSpace(s[1..][0]);
        assert TrimStart(s[1..]) == s[1..];
        assert s == [s[0]] + s[1..];
      } else {
        assert s == [s[0]] + s[1..];
      }
    }
  }

  /** The names `Name.of` leaves unchanged are exactly the strings in normal
      form. */
  lemma NormalIffFixed(s: string)
    ensures IsNormal(s) <==> Of(s) == s
  {
    if IsNormal(s) {
      assert TrimStart(s) == s;
      assert TrimEnd(s) == s;
      CollapseKeepsNormal(s);
    }
  }

  /** Normalising twice is normalising once:
      `Name.of(Name.of(s).get).get == Name.of(s).get`. */
  lemma OfIdempotent(s: string)
    ensures Of(Of(s)) == Of(s)
  {
    NormalIffFixed(Of(s));
  }

  /** Two normal strings joined directly stay normal. */
  lemma ConcatNormal(a: string, b: string)
    requires IsNormal(a) && IsNormal(b)
    ensures IsNormal(a + b)
  {
    var ab := a + b;
    forall i | 0 <= i < |ab| - 1 ensures !IsSpace(ab[i]) || !IsSpace(ab[i + 1]) {
      if i + 1 < |a| {
        assert ab[i] == a[i] && ab[i + 1] == a[i + 1];
      } else if i + 1 == |a| {
        assert ab[i + 1] == b[0];
      } else {
        assert ab[i] == b[i - |a|] && ab[i + 1] == b[i - |a| + 1];
      }
    }
  }

  /** Two non-empty normal strings joined by one space stay normal. */
  lemma SpaceJoinNormal(a: string, b: string)
    requires IsNormal(a) && IsNormal(b) && a != [] && b != []
    ensures IsNormal(a + " " + b)
  {
    var ab := a + " " + b;
    forall i | 0 <= i < |ab| - 1 ensures !IsSpace(ab[i]) || !IsSpace(ab[i + 1]) {
      if i + 1 < |a| {
        assert ab[i] == a[i] && ab[i + 1] == a[i + 1];
      } else if i + 1 == |a| {
        assert ab[i] == a[|a| - 1];
      } else if i == |a| {
        assert ab[i + 1] == b[0];
      } else {
        assert ab[i] == b[i - |a| - 1] && ab[i + 1] == b[i - |a|];
      }
    }
  }

  /** A non-empty normal string followed by one trailing space normalises
      back to itself. */
  lemma OfTrailingSpace(a: string)
    requires IsNormal(a) && a != []
    ensures Of(a + " ") == a
  {
    var s := a + " ";
    assert TrimStart(s) == s;
    assert s[..|s| - 1] == a;
    assert TrimEnd(a) == a;
    assert TrimEnd(s) == a;
    CollapseKeepsNormal(a);
  }

  /** The longest prefix of `s` without whitespace. */
  function FirstWord(s: string): (w: string)
    ensures |w| <= |s| && w == s[..|w|]
    ensures forall i :: 0 <= i < |w| ==> !IsSpace(w[i])
    ensures |w| == |s| || IsSpace(s[|w|])
  {
    if s == [] || IsSpace(s[0]) then [] else [s[0]] + FirstWord(s[1..])
  }

  /** The words of `s`: its maximal runs of non-whitespace characters, in
      order. */
  function Words(s: string): (ws: seq<string>)
    ensures forall k :: 0 <= k < |ws| ==> ws[k] != [] && forall i :: 0 <= i < |ws[k]| ==> !IsSpace(ws[k][i])
    decreases |s|
  {
    if s == [] then []
    else if IsSpace(s[0]) then Words(s[1..])
    else
      var w := FirstWord(s);
      [w] + Words(s[|w|..])
  }

  /** The words joined by one plain space each. */
  function Join(ws: seq<string>): string {
    if ws == [] then [] else if |ws| == 1 then ws[0] else ws[0] + " " + Join(ws[1..])
  }

  lemma {:induction false} WordsTrimStart(s: string)
    ensures Words(TrimStart(s)) == Words(s)
  {
    if s != [] && IsSpace(s[0]) {
      WordsTrimStart(s[1..]);
    }
  }

  lemma {:induction false} FirstWordAppendSpace(a: string, c: char)
    requires IsSpace(c)
    ensures FirstWord(a + [c]) == FirstWord(a)
  {
    if a != [] && !IsSpace(a[0]) {
      assert (a + [c])[1..] == a[1..] + [c];
      FirstWordAppendSpace(a[1..], c);
    }
  }

  /** A trailing whitespace character adds no word. */
  lemma {:induction false} WordsAppendSpace(a: string, c: char)
    requires IsSpace(c)
    ensures Words(a + [c]) == Words(a)
    decreases |a|
  {
    var ac := a + [c];
    if a == [] {
      assert Words(ac) == Words(ac[1..]) && ac[1..] == [];
    } else if IsSpace(a[0]) {
      assert ac[1..] == a[1..] + [c];
      WordsAppendSpace(a[1..], c);
    } else {
      var w := FirstWord(a);
      FirstWordAppendSpace(a, c);
      assert ac[|w|..] == a[|w|..] + [c];
      WordsAppendSpace(a[|w|..], c);
    }
  }

  lemma {:induction false} WordsTrimEnd(s: string)
    ensures Words(TrimEnd(s)) == Words(s)
    decreases |s|
  {
    if s != [] && IsSpace(s[|s| - 1]) {
      var init := s[..|s| - 1];
      assert s == init + [s[|s| - 1]];
      WordsAppendSpace(init, s[|s| - 1]);
      WordsTrimEnd(init);
    }
  }

  lemma ConsAppend(w: string, c: string)
    requires w != []
    ensures [w[0]] + (w[1..] + c) == w + c
  {
    assert w == [w[0]] + w[1..];
  }

  /** A prefix without whitespace passes through `Collapse` untouched. */
  lemma {:induction false} CollapseWordPrefix(w: string, rest: string)
    requires forall i :: 0 <= i < |w| ==> !IsSpace(w[i])
    ensures Collapse(w + rest) == w + Collapse(rest)
  {
    if w != [] {
      var s := w + rest;
      assert s[0] == w[0] && s[1..] == w[1..] + rest;
      assert Collapse(s) == [w[0]] + Collapse(w[1..] + rest);
      CollapseWordPrefix(w[1..], rest);
      ConsAppend(w, Collapse(rest));
    } else {
      assert w + rest == rest;
    }
  }

  lemma AppendAssoc(a: string, b: string, c: string)
    ensures a + (b + c) == a + b + c
  {
  }

  lemma JoinCons(w: string, ws: seq<string>)
    requires ws != []
    ensures Join([w] + ws) == w + " " + Join(ws)
  {
    assert ([w] + ws)[1..] == ws;
  }

  /** A string that starts with whitespace collapses to one space followed
      by the collapse of what follows the run. */
  lemma CollapseLeadingSpace(rest: string)
    requires rest != [] && IsSpace(rest[0])
    ensures Collapse(rest) == [' '] + Collapse(TrimStart(rest))
  {
    assert TrimStart(rest[1..]) == TrimStart(rest);
  }

  /** Trimming the start of a string that ends in a non-whitespace character
      leaves a string without edge whitespace. */
  lemma TrimStartKeepsEnd(rest: string)
    requires rest != [] && !IsSpace(rest[|rest| - 1])
    ensures TrimStart(rest) != [] && NoEdgeSpace(TrimStart(rest))
  {
  }

  /** The step of `CollapseIsJoin`: a word followed by a whitespace run and
      more words. */
  lemma CollapseWordThenRest(w: string, rest: string)
    requires w != [] && forall i :: 0 <= i < |w| ==> !IsSpace(w[i])
    requires rest != [] && IsSpace(rest[0]) && !IsSpace(rest[|rest| - 1])
    ensures Collapse(TrimStart(rest)) == Join(Words(TrimStart(rest))) ==>
              Collapse(w + rest) == Join([w] + Words(rest))
  {
    var ws := Words(TrimStart(rest));
    if Collapse(TrimStart(rest)) == Join(ws) {
      TrimStartKeepsEnd(rest);
      assert ws != [];
      CollapseWordPrefix(w, rest);
      CollapseLeadingSpace(rest);
      WordsTrimStart(rest);
      JoinCons(w, ws);
      AppendAssoc(w, " ", Join(ws));
    }
  }

  /** On a string without edge whitespace, `Collapse` joins the words with
      one space each. */
  lemma {:induction false} CollapseIsJoin(s: string)
    requires NoEdgeSpace(s)
    ensures Collapse(s) == Join(Words(s))
    decreases |s|
  {
    if s != [] {
      var w := FirstWord(s);
      var rest := s[|w|..];
      assert s == w + rest;
      assert Words(s) == [w] + Words(rest);
      if rest == [] {
        CollapseWordPrefix(w, rest);
        assert Collapse(s) == w;
      } else {
        assert rest[|rest| - 1] == s[|s| - 1];
        TrimStartKeepsEnd(rest);
        CollapseIsJoin(TrimStart(rest));
        CollapseWordThenRest(w, rest);
      }
    }
  }

  /** `Name.of(s)` is the words of `s` joined by single spaces: every run of
      whitespace between two words becomes exactly one space, and edge
      whitespace disappears. */
  lemma OfIsJoinedWords(s: string)
    ensures Of(s) == Join(Words(s))
  {
    WordsTrimStart(s);
    WordsTrimEnd(TrimStart(s));
    CollapseIsJoin(Trim(s));
  }
}
