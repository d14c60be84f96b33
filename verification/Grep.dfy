/** The regular-expression matcher of grep.c against the textbook meaning of patterns. */
module Grep {

  // ---------------------------------------------------------------- meaning of patterns

  datatype Regex = Eps | Chr(c: char) | Any | Cat(left: Regex, right: Regex) | Star(body: Regex)

  /** s is a word of the language of r. */
  ghost predicate In(r: Regex, s: string)
    decreases r, |s|
  {
    match r
    case Eps => s == []
    case Chr(c) => s == [c]
    case Any => |s| == 1
    case Cat(a, b) => exists k :: 0 <= k <= |s| && In(a, s[..k]) && In(b, s[k..])
    case Star(a) => s == [] || exists k :: 0 < k <= |s| && In(a, s[..k]) && In(r, s[k..])
  }

  /** A pattern after its leading ^ : a regular expression, and whether a final $ anchors it. */
  datatype Pattern = Pattern(body: Regex, toEnd: bool)

  function Atom(c: char): Regex {
    if c == '.' then Any else Chr(c)
  }

  /** x* repeats one character; $ anchors only as the very last character; all else is literal. */
  function Parse(re: string): Pattern {
    if re == [] then Pattern(Eps, false)
    else if |re| >= 2 && re[1] == '*' then
      var rest := Parse(re[2..]);
      Pattern(Cat(Star(Atom(re[0])), rest.body), rest.toEnd)
    else if re == "$" then Pattern(Eps, true)
    else
      var rest := Parse(re[1..]);
      Pattern(Cat(Atom(re[0]), rest.body), rest.toEnd)
  }

  /** text[i..k] is matched by p. */
  ghost predicate Spans(p: Pattern, text: string, i: nat, k: nat) {
    i <= k <= |text| && In(p.body, text[i..k]) && (p.toEnd ==> k == |text|)
  }

  /** Some prefix of text is matched by p. */
  ghost predicate Here(p: Pattern, text: string) {
    exists k: nat :: Spans(p, text, 0, k)
  }

  /** What grep promises: some substring matches, at the beginning if the pattern starts with ^. */
  ghost predicate Matches(re: string, text: string) {
    if re != [] && re[0] == '^'
    then exists k: nat :: Spans(Parse(re[1..]), text, 0, k)
    else exists i: nat, k: nat :: Spans(Parse(re), text, i, k)
  }

  // ---------------------------------------------------------------- facts about the meaning

  predicate Fits(c: char, x: char) {
    c == '.' || x == c
  }

  lemma InAtom(c: char, s: string)
    ensures In(Atom(c), s) <==> |s| == 1 && Fits(c, s[0])
  {
  }

  /** c* is any run of characters fitting c. */
  lemma {:induction false} InStar(c: char, s: string)
    ensures In(Star(Atom(c)), s) <==> forall i :: 0 <= i < |s| ==> Fits(c, s[i])
  {
    if s != [] {
      InStar(c, s[1..]);
      InAtom(c, s[..1]);
      if In(Star(Atom(c)), s) {
        var k :| 0 < k <= |s| && In(Atom(c), s[..k]) && In(Star(Atom(c)), s[k..]);
        InAtom(c, s[..k]);
        assert forall i :: 1 <= i < |s| ==> s[i] == s[1..][i - 1];
      }
      if forall i :: 0 <= i < |s| ==> Fits(c, s[i]) {
        assert In(Atom(c), s[..1]) && In(Star(Atom(c)), s[1..]);
      }
    }
  }

  /** A pattern x… matches here iff x fits the first character and the rest matches after it. */
  lemma HereAtom(c: char, rest: Pattern, text: string)
    ensures Here(Pattern(Cat(Atom(c), rest.body), rest.toEnd), text) <==>
              text != [] && Fits(c, text[0]) && Here(rest, text[1..])
  {
    var p := Pattern(Cat(Atom(c), rest.body), rest.toEnd);
    if Here(p, text) {
      var k: nat :| Spans(p, text, 0, k);
      var s := text[0..k];
      var m :| 0 <= m <= |s| && In(Atom(c), s[..m]) && In(rest.body, s[m..]);
      InAtom(c, s[..m]);
      assert s[m..] == text[1..][0..k - 1];
      assert Spans(rest, text[1..], 0, k - 1);
    }
    if text != [] && Fits(c, text[0]) && Here(rest, text[1..]) {
      var k: nat :| Spans(rest, text[1..], 0, k);
      var s := text[0..k + 1];
      InAtom(c, s[..1]);
      assert s[1..] == text[1..][0..k];
      assert Spans(p, text, 0, k + 1);
    }
  }

  /** c*… matches here iff the rest matches after some run of characters fitting c. */
  ghost predicate AfterRun(c: char, rest: Pattern, text: string, k: nat) {
    k <= |text| && (forall i :: 0 <= i < k ==> Fits(c, text[i])) && Here(rest, text[k..])
  }

  lemma HereStar(c: char, rest: Pattern, text: string)
    ensures Here(Pattern(Cat(Star(Atom(c)), rest.body), rest.toEnd), text) <==>
              exists k: nat :: AfterRun(c, rest, text, k)
  {
    var p := Pattern(Cat(Star(Atom(c)), rest.body), rest.toEnd);
    if Here(p, text) {
      var k: nat :| Spans(p, text, 0, k);
      var s := text[0..k];
      var m :| 0 <= m <= |s| && In(Star(Atom(c)), s[..m]) && In(rest.body, s[m..]);
      InStar(c, s[..m]);
      assert forall i :: 0 <= i < m ==> text[i] == s[..m][i];
      assert s[m..] == text[m..][0..k - m];
      assert Spans(rest, text[m..], 0, k - m);
      assert AfterRun(c, rest, text, m);
    }
    if k: nat :| AfterRun(c, rest, text, k) {
      var m: nat :| Spans(rest, text[k..], 0, m);
      var s := text[0..k + m];
      InStar(c, s[..k]);
      assert s[k..] == text[k..][0..m];
      assert Spans(p, text, 0, k + m);
    }
  }

  lemma HereEmpty(text: string, toEnd: bool)
    ensures Here(Pattern(Eps, toEnd), text) <==> !toEnd || text == []
  {
    assert text[0..0] == [];
    if !toEnd || text == [] {
      assert Spans(Pattern(Eps, toEnd), text, 0, 0);
    }
  }

  lemma SpansShift(p: Pattern, text: string, i: nat)
    requires i <= |text|
    ensures Here(p, text[i..]) <==> exists k: nat :: Spans(p, text, i, k)
  {
    if k: nat :| Spans(p, text[i..], 0, k) {
      assert text[i..][0..k] == text[i..i + k];
      assert Spans(p, text, i, i + k);
    }
    if k: nat :| Spans(p, text, i, k) {
      assert text[i..][0..k - i] == text[i..k];
      assert Spans(p, text[i..], 0, k - i);
    }
  }

  // ---------------------------------------------------------------- what patterns match, as strings

  ghost predicate NoStar(w: string) {
    forall i :: 0 <= i < |w| ==> w[i] != '*'
  }

  /** text has w at i, a dot standing for any character. */
  ghost predicate FitsAt(w: string, text: string, i: nat) {
    i + |w| <= |text| && forall j :: 0 <= j < |w| ==> Fits(w[j], text[i + j])
  }

  lemma FitsNext(w: string, text: string)
    requires w != []
    ensures FitsAt(w, text, 0) <==> text != [] && Fits(w[0], text[0]) && FitsAt(w[1..], text[1..], 0)
  {
    if text != [] && Fits(w[0], text[0]) && FitsAt(w[1..], text[1..], 0) {
      forall j | 0 <= j < |w| ensures Fits(w[j], text[0 + j]) {
        if j > 0 { assert Fits(w[1..][j - 1], text[1..][0 + (j - 1)]); }
      }
    }
  }

  /** Characters in front of the rest of a pattern are to be found in front of what the rest matches. */
  lemma {:induction false} HereWord(w: string, v: string, text: string)
    requires NoStar(w) && (v != [] ==> v[0] != '*') && (v == [] && w != [] ==> w[|w| - 1] != '$')
    ensures Here(Parse(w + v), text) <==> FitsAt(w, text, 0) && Here(Parse(v), text[|w|..])
  {
    if w == [] {
      assert w + v == v && text[0..] == text;
    } else {
      var re := w + v;
      assert re[0] == w[0] && re[1..] == w[1..] + v && (|re| >= 2 ==> re[1] != '*') && re != "$";
      HereAtom(w[0], Parse(re[1..]), text);
      FitsNext(w, text);
      if text != [] {
        HereWord(w[1..], v, text[1..]);
        if |w| <= |text| { assert text[1..][|w[1..]|..] == text[|w|..]; }
      }
    }
  }

  /** c* in front of the rest of a pattern stands for a run of characters, of any length. */
  lemma HereRun(c: char, v: string, text: string)
    ensures Here(Parse([c, '*'] + v), text) <==>
              exists k: nat :: FitsAt(Repeat(c, k), text, 0) && Here(Parse(v), text[k..])
  {
    var re := [c, '*'] + v;
    assert re[2..] == v;
    HereStar(c, Parse(v), text);
    if k: nat :| AfterRun(c, Parse(v), text, k) { assert FitsAt(Repeat(c, k), text, 0); }
    if k: nat :| FitsAt(Repeat(c, k), text, 0) && Here(Parse(v), text[k..]) {
      forall i | 0 <= i < k ensures Fits(c, text[i]) { assert Fits(Repeat(c, k)[i], text[0 + i]); }
      assert AfterRun(c, Parse(v), text, k);
    }
  }

  function Repeat(c: char, k: nat): string {
    seq(k, _ => c)
  }

  /** Nothing is left to match, or the text must have ended. */
  lemma HereEnd(text: string)
    ensures Here(Parse(""), text) && (Here(Parse("$"), text) <==> text == [])
  {
    HereEmpty(text, false);
    HereEmpty(text, true);
  }

  /** No special characters: a $ is special at the end only, a ^ only at the beginning. */
  ghost predicate Plain(w: string) {
    NoStar(w) && '.' !in w && w != [] && w[0] != '^' && w[|w| - 1] != '$'
  }

  lemma PlainHere(w: string, text: string)
    requires Plain(w)
    ensures Here(Parse(w), text) <==> w <= text
    ensures Here(Parse(w + "$"), text) <==> text == w
  {
    HereWord(w, "", text);
    HereWord(w, "$", text);
    assert w + "" == w;
    if |w| <= |text| {
      HereEnd(text[|w|..]);
      assert FitsAt(w, text, 0) <==> w == text[..|w|] by {
        if FitsAt(w, text, 0) { assert forall j :: 0 <= j < |w| ==> Fits(w[j], text[0 + j]); }
      }
      if text[|w|..] == [] { assert text[..|w|] == text; }
    }
  }

  lemma PlainFrom(w: string, p: Pattern, text: string, i: nat)
    requires Plain(w) && (p == Parse(w) || p == Parse(w + "$")) && i <= |text|
    ensures p == Parse(w) ==> ((exists k: nat :: Spans(p, text, i, k)) <==> w <= text[i..])
    ensures p == Parse(w + "$") ==> ((exists k: nat :: Spans(p, text, i, k)) <==> text[i..] == w)
  {
    PlainHere(w, text[i..]);
    SpansShift(p, text, i);
  }

  /** A plain word matches as a substring. */
  lemma PlainSubstring(w: string, text: string)
    requires Plain(w)
    ensures Matches(w, text) <==> exists i: nat :: i <= |text| && w <= text[i..]
  {
    var p := Parse(w);
    if i: nat, k: nat :| Spans(p, text, i, k) { PlainFrom(w, p, text, i); }
    if i: nat :| i <= |text| && w <= text[i..] {
      PlainFrom(w, p, text, i);
      var k: nat :| Spans(p, text, i, k);
    }
  }

  /** With a final $ it matches as a suffix. */
  lemma PlainSuffix(w: string, text: string)
    requires Plain(w)
    ensures Matches(w + "$", text) <==> |w| <= |text| && text[|text| - |w|..] == w
  {
    var p := Parse(w + "$");
    assert (w + "$")[0] == w[0];
    if i: nat, k: nat :| Spans(p, text, i, k) {
      PlainFrom(w, p, text, i);
      assert text[i..] == w;
    }
    if |w| <= |text| && text[|text| - |w|..] == w {
      var i: nat := |text| - |w|;
      PlainFrom(w, p, text, i);
      var k: nat :| Spans(p, text, i, k);
    }
  }

  /** With a leading ^ it matches as a prefix, and with both it is the whole text. */
  lemma PlainPrefix(w: string, text: string)
    requires Plain(w)
    ensures Matches("^" + w, text) <==> w <= text
    ensures Matches("^" + w + "$", text) <==> text == w
  {
    assert ("^" + w)[1..] == w && ("^" + w + "$")[1..] == w + "$";
    PlainHere(w, text);
  }

  // ---------------------------------------------------------------- the matcher

  /** C strings: no NUL inside. */
  predicate CString(s: string) {
    forall i :: 0 <= i < |s| ==> s[i] != '\0'
  }

  /** The character a pointer i into s reads, with the terminating NUL. */
  function At(s: string, i: nat): char
    requires i <= |s|
  {
    if i < |s| then s[i] else '\0'
  }

  method Match(re: string, text: string) returns (r: bool)
    requires CString(re) && CString(text)
    ensures r <==> Matches(re, text)
  {
    if At(re, 0) == '^' {
      r := MatchHere(re[1..], text);
      return;
    }
    var i := 0;
    while true
      invariant 0 <= i <= |text|
      invariant forall j: nat :: j < i ==> !Here(Parse(re), text[j..])
      decreases |text| - i
    {
      var here := MatchHere(re, text[i..]);
      SpansShift(Parse(re), text, i);
      if here { return true; }
      if At(text, i) == '\0' { break; }
      i := i + 1;
    }
    forall j: nat, k: nat
      ensures !Spans(Parse(re), text, j, k)
    {
      if j <= |text| { SpansShift(Parse(re), text, j); }
    }
    return false;
  }

  method MatchHere(re: string, text: string) returns (r: bool)
    requires CString(re) && CString(text)
    ensures r <==> Here(Parse(re), text)
    decreases |re|, 0
  {
    if At(re, 0) == '\0' {
      HereEmpty(text, false);
      return true;
    }
    if At(re, 1) == '*' {
      HereStar(re[0], Parse(re[2..]), text);
      assert Parse(re) == Pattern(Cat(Star(Atom(re[0])), Parse(re[2..]).body), Parse(re[2..]).toEnd);
      r := MatchStar(re[0], re[2..], text);
      return;
    }
    if re[0] == '$' && At(re, 1) == '\0' {
      HereEmpty(text, true);
      return At(text, 0) == '\0';
    }
    HereAtom(re[0], Parse(re[1..]), text);
    if At(text, 0) != '\0' && (re[0] == '.' || re[0] == At(text, 0)) {
      r := MatchHere(re[1..], text[1..]);
      return;
    }
    return false;
  }

  method MatchStar(c: char, re: string, text: string) returns (r: bool)
    requires CString(re) && CString(text)
    ensures r <==> exists k: nat :: AfterRun(c, Parse(re), text, k)
    decreases |re|, 1
  {
    var i := 0;
    while true
      invariant 0 <= i <= |text|
      invariant forall j :: 0 <= j < i ==> Fits(c, text[j])
      invariant forall j: nat :: j < i ==> !AfterRun(c, Parse(re), text, j)
      decreases |text| - i
    {
      var here := MatchHere(re, text[i..]);
      if here {
        assert AfterRun(c, Parse(re), text, i);
        return true;
      }
      if !(At(text, i) != '\0' && (At(text, i) == c || c == '.')) { break; }
      i := i + 1;
    }
    return false;
  }
}
