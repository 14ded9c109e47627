/**
 What the clean-up of tag ids does to a text: it takes white space away at the ends, turns every other
 run of white space or underscores into one underscore, lowers the case, and keeps everything else.
 */
module TagIdText {
  import opened Text
  import opened TagIds

  predicate Space(c: char) {
    IsSpace(c, JS_SPACE)
  }

  /** Without white space, capitals and doubled underscores. */
  ghost predicate Tidy(s: string) {
    forall i | 0 <= i < |s| ::
      !Space(s[i]) && !('A' <= s[i] <= 'Z') && (i + 1 < |s| && s[i] == '_' ==> s[i + 1] != '_')
  }

  // ---- the result is tidy -----------------------------------------------------------------

  ghost predicate NoSpace(s: string) {
    forall i | 0 <= i < |s| :: !Space(s[i])
  }

  ghost predicate NoCapital(s: string) {
    forall i | 0 <= i < |s| :: !('A' <= s[i] <= 'Z')
  }

  ghost predicate NoDouble(s: string) {
    forall i | 0 <= i < |s| - 1 && s[i] == '_' :: s[i + 1] != '_'
  }

  lemma {:induction false} UnderscoresHaveNoSpace(s: string)
    ensures NoSpace(SpacesToUnderscore(s))
  {
    if s != "" {
      UnderscoresHaveNoSpace(s[..|s| - 1]);
      JsVisible('_');
    }
  }

  lemma LowerCharSpace(c: char)
    requires !Space(c)
    ensures !Space(LowerChar(c)) && !('A' <= LowerChar(c) <= 'Z')
  {
    if 'A' <= c <= 'Z' { JsVisible(LowerChar(c)); }
  }

  lemma {:induction false} LowerHasNoCapital(s: string)
    requires NoSpace(s)
    ensures NoSpace(Lower(s)) && NoCapital(Lower(s))
  {
    if s != "" {
      var n := |s| - 1;
      LowerHasNoCapital(s[..n]);
      LowerCharSpace(s[n]);
    }
  }

  lemma {:induction false} CollapseHasNoDouble(s: string)
    ensures NoDouble(Collapse(s)) && (Collapse(s) == "" <==> s == "")
    ensures s != "" ==> Collapse(s)[|Collapse(s)| - 1] == s[|s| - 1]
  {
    if s != "" {
      CollapseHasNoDouble(s[..|s| - 1]);
    }
  }

  lemma {:induction false} CollapseKeepsOthers(s: string, c: char)
    requires c !in s
    ensures c !in Collapse(s)
  {
    if s != "" {
      CollapseKeepsOthers(s[..|s| - 1], c);
    }
  }

  lemma CleanIsTidy(s: string)
    ensures Tidy(Clean(s))
  {
    var t := SanitizeId(s);
    UnderscoresHaveNoSpace(TrimSpace(s, JS_SPACE));
    LowerHasNoCapital(t);
    CollapseHasNoDouble(Lower(t));
    var clean := Collapse(Lower(t));
    forall i | 0 <= i < |clean| ensures !Space(clean[i]) && !('A' <= clean[i] <= 'Z') {
      if clean[i] !in Lower(t) { CollapseKeepsOthers(Lower(t), clean[i]); }
    }
  }

  // ---- what is tidy stays -------------------------------------------------------------------

  lemma {:induction false} UnderscoresFix(s: string)
    requires NoSpace(s)
    ensures SpacesToUnderscore(s) == s
  {
    if s != "" {
      UnderscoresFix(s[..|s| - 1]);
    }
  }

  lemma {:induction false} LowerFixes(s: string)
    requires NoCapital(s)
    ensures Lower(s) == s
  {
    if s != "" {
      LowerFixes(s[..|s| - 1]);
    }
  }

  lemma {:induction false} CollapseFixes(s: string)
    requires NoDouble(s)
    ensures Collapse(s) == s
  {
    if s != "" {
      var n := |s| - 1;
      assert NoDouble(s[..n]) by { forall i | 0 <= i < n - 1 && s[..n][i] == '_' ensures s[..n][i + 1] != '_' { assert s[i + 1] != '_'; } }
      CollapseFixes(s[..n]);
      if n > 0 && s[n - 1] == '_' { assert s[n - 1 + 1] != '_'; }
    }
  }

  /** A tidy text is not changed. */
  lemma CleanFixesTidy(s: string)
    requires Tidy(s)
    ensures Clean(s) == s
  {
    FixedIffTrimmed(s, JS_SPACE);
    UnderscoresFix(s);
    LowerFixes(s);
    CollapseFixes(s);
  }

  // ---- nothing else is lost or added ----------------------------------------------------------

  /** The characters that are neither white space nor underscores. */
  function Letters(s: string): string {
    if s == "" then ""
    else
      var c := s[|s| - 1];
      Letters(s[..|s| - 1]) + if c == '_' || Space(c) then "" else [c]
  }

  lemma {:induction false} LettersOfConcat(a: string, b: string)
    ensures Letters(a + b) == Letters(a) + Letters(b)
  {
    if b == "" {
      assert a + b == a;
    } else {
      var n := |b| - 1;
      LettersOfConcat(a, b[..n]);
      assert (a + b)[..|a + b| - 1] == a + b[..n];
    }
  }

  lemma {:induction false} LettersOfSpace(s: string)
    requires AllSpace(s, JS_SPACE)
    ensures Letters(s) == ""
  {
    if s != "" {
      LettersOfSpace(s[..|s| - 1]);
    }
  }

  lemma TrimKeepsLetters(s: string)
    ensures Letters(TrimSpace(s, JS_SPACE)) == Letters(s)
  {
    var a, t, b := TrimMeans(s, JS_SPACE);
    LettersOfConcat(a + t, b);
    LettersOfConcat(a, t);
    LettersOfSpace(a);
    LettersOfSpace(b);
  }

  lemma LettersSnoc(s: string, c: char)
    ensures Letters(s + [c]) == Letters(s) + if c == '_' || Space(c) then "" else [c]
  {
    assert (s + [c])[..|s|] == s;
  }

  lemma {:induction false} UnderscoresKeepLetters(s: string)
    ensures Letters(SpacesToUnderscore(s)) == Letters(s)
  {
    if s != "" {
      var init, c := s[..|s| - 1], s[|s| - 1];
      UnderscoresKeepLetters(init);
      LettersSnoc(SpacesToUnderscore(init), c);
      LettersSnoc(SpacesToUnderscore(init), '_');
    }
  }

  lemma LowerSnoc(s: string, c: char)
    ensures Lower(s + [c]) == Lower(s) + [LowerChar(c)]
  {
    assert (s + [c])[..|s|] == s;
  }

  lemma LowerKeepsUnderscore(c: char)
    ensures LowerChar(c) == '_' <==> c == '_'
  {
  }

  lemma LowerOneLetter(init: string, c: char)
    requires !Space(c) && Letters(Lower(init)) == Lower(Letters(init))
    ensures Letters(Lower(init) + [LowerChar(c)]) == Lower(Letters(init + [c]))
  {
    LettersSnoc(init, c);
    LettersSnoc(Lower(init), LowerChar(c));
    LowerKeepsUnderscore(c);
    LowerCharSpace(c);
    if c == '_' {
      assert Letters(init) + "" == Letters(init);
    } else {
      LowerSnoc(Letters(init), c);
    }
  }

  lemma {:induction false} LowerKeepsLetters(s: string)
    requires NoSpace(s)
    ensures Letters(Lower(s)) == Lower(Letters(s))
    decreases |s|
  {
    if s != "" {
      var init, c := InitAndLast(s);
      LowerKeepsLetters(init);
      LowerSnoc(init, c);
      LowerOneLetter(init, c);
    }
  }

  lemma InitAndLast(s: string) returns (init: string, c: char)
    requires s != "" && NoSpace(s)
    ensures s == init + [c] && |init| < |s| && NoSpace(init) && !Space(c)
  {
    init, c := s[..|s| - 1], s[|s| - 1];
  }

  lemma {:induction false} CollapseKeepsLetters(s: string)
    ensures Letters(Collapse(s)) == Letters(s)
  {
    if s != "" {
      var init, c := s[..|s| - 1], s[|s| - 1];
      CollapseKeepsLetters(init);
      LettersSnoc(Collapse(init), c);
    }
  }

  /** Apart from white space and underscores, the clean-up changes nothing but case. */
  lemma CleanKeepsLetters(s: string)
    ensures Letters(Clean(s)) == Lower(Letters(s))
  {
    var t := TrimSpace(s, JS_SPACE);
    TrimKeepsLetters(s);
    UnderscoresKeepLetters(t);
    UnderscoresHaveNoSpace(t);
    LowerKeepsLetters(SpacesToUnderscore(t));
    CollapseKeepsLetters(Lower(SpacesToUnderscore(t)));
  }

  // ---- what separates words --------------------------------------------------------------------

  function Underscores(n: nat): string {
    if n == 0 then "" else Underscores(n - 1) + "_"
  }

  ghost predicate Gap(w: string) {
    w != "" && forall i | 0 <= i < |w| :: w[i] == '_' || Space(w[i])
  }

  lemma UnderscoreSnoc(s: string, c: char)
    ensures SpacesToUnderscore(s + [c]) ==
            if !Space(c) then SpacesToUnderscore(s) + [c]
            else if s != "" && Space(s[|s| - 1]) then SpacesToUnderscore(s)
            else SpacesToUnderscore(s) + ['_']
  {
    assert (s + [c])[..|s|] == s;
  }

  lemma {:induction false} GapBecomesUnderscores(a: string, w: string) returns (n: nat)
    requires NoSpace(a) && Gap(w)
    ensures n > 0 && SpacesToUnderscore(a + w) == a + Underscores(n)
    decreases |w|
  {
    var v, c := w[..|w| - 1], w[|w| - 1];
    assert a + w == (a + v) + [c] && w == v + [c];
    UnderscoreSnoc(a + v, c);
    JsVisible('_');
    if v == "" {
      assert a + v == a;
      UnderscoresFix(a);
      n := 1;
      assert Underscores(1) == "_";
    } else {
      var m := GapBecomesUnderscores(a, v);
      n := if Space(c) && Space(v[|v| - 1]) then m else m + 1;
      assert (a + Underscores(m)) + ['_'] == a + Underscores(m + 1);
    }
  }

  lemma {:induction false} UnderscoresThenWord(x: string, b: string)
    requires NoSpace(b)
    ensures SpacesToUnderscore(x + b) == SpacesToUnderscore(x) + b
  {
    if b == "" {
      assert x + b == x;
    } else {
      var n := |b| - 1;
      UnderscoresThenWord(x, b[..n]);
      assert x + b == (x + b[..n]) + [b[n]];
      UnderscoreSnoc(x + b[..n], b[n]);
    }
  }

  lemma CollapseSnoc(s: string, c: char)
    ensures Collapse(s + [c]) == if c == '_' && s != "" && s[|s| - 1] == '_' then Collapse(s) else Collapse(s) + [c]
  {
    assert (s + [c])[..|s|] == s;
  }

  lemma {:induction false} CollapseUnderscores(a: string, n: nat)
    requires NoDouble(a) && a != "" && a[|a| - 1] != '_' && n > 0
    ensures Collapse(a + Underscores(n)) == a + "_"
  {
    var before := a + Underscores(n - 1);
    assert a + Underscores(n) == before + ['_'];
    CollapseSnoc(before, '_');
    if n == 1 {
      assert before == a;
      CollapseFixes(a);
    } else {
      CollapseUnderscores(a, n - 1);
    }
  }

  lemma WordInit(x: string, b: string) returns (init: string, c: char)
    requires b != "" && NoDouble(b) && b[0] != '_'
    ensures b == init + [c] && |init| < |b| && x + b == (x + init) + [c] && NoDouble(init)
    ensures init == "" ==> c != '_'
    ensures init != "" ==> init[0] != '_' && (c == '_' ==> init[|init| - 1] != '_')
  {
    var n := |b| - 1;
    init, c := b[..n], b[n];
    assert forall i | 0 <= i < n - 1 && init[i] == '_' :: b[i + 1] != '_';
    if n > 0 && b[n - 1] == '_' { assert b[n - 1 + 1] != '_'; }
  }

  lemma {:induction false} CollapseThenWord(x: string, b: string)
    requires NoDouble(b) && (b == "" || b[0] != '_')
    ensures Collapse(x + b) == Collapse(x) + b
    decreases |b|
  {
    if b == "" {
      assert x + b == x;
    } else {
      var init, c := WordInit(x, b);
      CollapseThenWord(x, init);
      CollapseSnoc(x + init, c);
    }
  }

  lemma {:induction false} UnderscoresAreTidy(n: nat)
    ensures forall i | 0 <= i < |Underscores(n)| :: Underscores(n)[i] == '_'
  {
    if n > 0 { UnderscoresAreTidy(n - 1); }
  }

  /** Between two tidy words any run of white space and underscores becomes one underscore. */
  lemma CleanJoinsWords(a: string, w: string, b: string)
    requires Tidy(a) && a != "" && a[|a| - 1] != '_' && Gap(w) && Tidy(b) && b != "" && b[0] != '_'
    ensures Clean(a + w + b) == a + "_" + b
  {
    var s := a + w + b;
    assert s[0] == a[0] && s[|s| - 1] == b[|b| - 1];
    FixedIffTrimmed(s, JS_SPACE);
    var n := GapBecomesUnderscores(a, w);
    UnderscoresThenWord(a + w, b);
    var t := a + Underscores(n) + b;
    UnderscoresAreTidy(n);
    LowerFixes(t);
    CollapseUnderscores(a, n);
    CollapseThenWord(a + Underscores(n), b);
  }

  // ---- the candidates --------------------------------------------------------------------------

  lemma {:induction false} DigitsAreTidy(d: string)
    requires AllDigits(d)
    ensures Tidy(d) && '_' !in d
  {
    forall i | 0 <= i < |d| ensures !Space(d[i]) && !('A' <= d[i] <= 'Z') && d[i] != '_' {
      assert IsDigit(d[i]);
      JsVisible(d[i]);
    }
  }

  lemma TidyPair(a: string, b: string)
    requires Tidy(a) && Tidy(b) && a != "" && a[|a| - 1] != '_' && b != "" && b[0] != '_'
    ensures Tidy(a + "_" + b)
  {
    JsVisible('_');
    var s := a + "_" + b;
    forall i | 0 <= i < |s|
      ensures !Space(s[i]) && !('A' <= s[i] <= 'Z') && (i + 1 < |s| && s[i] == '_' ==> s[i + 1] != '_')
    {
      assert s[i] == if i < |a| then a[i] else if i == |a| then '_' else b[i - |a| - 1];
      if i + 1 < |s| { assert s[i + 1] == if i + 1 < |a| then a[i + 1] else if i + 1 == |a| then '_' else b[i - |a|]; }
    }
  }

  /** Tidy parts are seen as they are: base id, suffix, and a number from two on. */
  lemma CandidatesSpellTheirParts(id: string, suf: string, k: nat)
    requires Tidy(id) && id != "" && id[|id| - 1] != '_'
    requires Tidy(suf) && suf != "" && suf[0] != '_' && suf[|suf| - 1] != '_'
    ensures Candidate(id, suf, k) == if k == 0 then id + "_" + suf else id + "_" + suf + "_" + Decimal(k + 1)
  {
    TidyPair(id, suf);
    if k == 0 {
      CleanFixesTidy(id + "_" + suf);
    } else {
      TidyPairWithNumber(id + "_" + suf, suf, Decimal(k + 1));
    }
  }

  lemma TidyPairWithNumber(pair: string, suf: string, d: string)
    requires Tidy(pair) && suf != "" && suf[|suf| - 1] != '_' && |suf| <= |pair| && pair[|pair| - 1] == suf[|suf| - 1]
    requires d != "" && AllDigits(d)
    ensures Clean(pair + "_" + d) == pair + "_" + d
  {
    DigitsAreTidy(d);
    assert d[0] in d;
    TidyPair(pair, d);
    CleanFixesTidy(pair + "_" + d);
  }

  /** In any case they hold the letters of base id, suffix and number, in order and in lower case. */
  lemma CandidatesKeepLetters(id: string, suf: string, k: nat)
    ensures Tidy(Candidate(id, suf, k))
    ensures Letters(Candidate(id, suf, k)) ==
            Lower(Letters(id) + Letters(suf) + if k == 0 then "" else Letters(Decimal(k + 1)))
  {
    var pair, d := id + "_" + suf, Decimal(k + 1);
    LettersOfPair(id, suf);
    if k == 0 {
      CleanIsTidy(pair);
      CleanKeepsLetters(pair);
      assert Letters(id) + Letters(suf) + "" == Letters(id) + Letters(suf);
    } else {
      LettersOfPair(pair, d);
      CleanIsTidy(pair + "_" + d);
      CleanKeepsLetters(pair + "_" + d);
    }
  }

  lemma LettersOfPair(a: string, b: string)
    ensures Letters(a + "_" + b) == Letters(a) + Letters(b)
  {
    LettersOfConcat(a + "_", b);
    LettersSnoc(a, '_');
  }
}
