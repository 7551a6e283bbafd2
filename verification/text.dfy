/**
 Answer normalization and the relaxed gold-answer comparator of
 src/analyze_results.py (`normalize_text` and `match`).

 Characters are modelled with their ASCII meaning: `lower()` maps A-Z only,
 the regex class \w is [A-Za-z0-9_], and `str.split()` splits on the ASCII
 whitespace characters (space, 9-13 and 28-31).
 */
module Text {

  /* ---------------------------------------------------------------------
     Character classes
     --------------------------------------------------------------------- */

  predicate IsUpper(c: char) { 'A' <= c <= 'Z' }

  predicate IsAlnum(c: char) { 'a' <= c <= 'z' || 'A' <= c <= 'Z' || '0' <= c <= '9' }

  /** The regex word class \w, restricted to ASCII. */
  predicate IsWordChar(c: char) { IsAlnum(c) || c == '_' }

  /** Whitespace as `str.split()` with no argument sees it, restricted to ASCII. */
  predicate IsSpace(c: char) { c == ' ' || 9 <= c as int <= 13 || 28 <= c as int <= 31 }

  predicate IsPrintable(c: char) { ' ' <= c <= '~' }

  predicate PrintableText(s: string) { forall i :: 0 <= i < |s| ==> IsPrintable(s[i]) }

  /** Python's `string.punctuation`: the 32 printable ASCII characters that are
      neither letters, digits nor space, i.e. !"#$%&'()*+,-./ :;<=>?@ [\]^_` {|}~ */
  predicate IsPunctuation(c: char) {
    '!' <= c <= '/' || ':' <= c <= '@' || '[' <= c <= '`' || '{' <= c <= '~'
  }

  /** The three tokens removed by `remove_articles`. */
  predicate IsArticle(w: string) { w == "a" || w == "an" || w == "the" }

  /** A piece of text `str.split()` can return: non-empty, no whitespace. */
  predicate IsToken(w: string) { |w| > 0 && forall i :: 0 <= i < |w| ==> !IsSpace(w[i]) }

  predicate AllTokens(ts: seq<string>) { forall j :: 0 <= j < |ts| ==> IsToken(ts[j]) }

  /** No whitespace other than single spaces strictly between two non-blank
      characters: no leading, trailing or doubled blanks. */
  ghost predicate WellSpaced(r: string) {
    && (forall i :: 0 <= i < |r| && IsSpace(r[i]) ==> r[i] == ' ' && 0 < i < |r| - 1)
    && (forall i, j :: 0 <= i < j < |r| && j == i + 1 ==> !IsSpace(r[i]) || !IsSpace(r[j]))
  }

  predicate NoArticleTokens(ts: seq<string>) { forall j :: 0 <= j < |ts| ==> !IsArticle(ts[j]) }

  /* ---------------------------------------------------------------------
     The four stages of normalize_text
     --------------------------------------------------------------------- */

  function LowerChar(c: char): char {
    if IsUpper(c) then (c as int + 32) as char else c
  }

  /** `text.lower()` */
  function Lower(s: string): (r: string)
    ensures |r| == |s|
    ensures forall i :: 0 <= i < |r| ==> !IsUpper(r[i])
    ensures forall i :: 0 <= i < |s| && !IsUpper(s[i]) ==> r[i] == s[i]
    ensures forall i :: 0 <= i < |s| && IsUpper(s[i]) ==> r[i] as int == s[i] as int + 32
  {
    seq(|s|, i requires 0 <= i < |s| => LowerChar(s[i]))
  }

  /** `remove_punc`: keeps, in order, the characters that are not punctuation. */
  function RemovePunctuation(s: string): (r: string)
    ensures |r| <= |s|
    ensures forall i :: 0 <= i < |r| ==> !IsPunctuation(r[i])
  {
    if s == [] then []
    else (if IsPunctuation(s[0]) then [] else [s[0]]) + RemovePunctuation(s[1..])
  }

  /** Length of the longest prefix of `s` made of \w characters. */
  function WordRun(s: string): (k: nat)
    ensures k <= |s|
    ensures forall i :: 0 <= i < k ==> IsWordChar(s[i])
    ensures k < |s| ==> !IsWordChar(s[k])
  {
    if s == [] || !IsWordChar(s[0]) then 0 else 1 + WordRun(s[1..])
  }

  /** `remove_articles`: re.sub(r'\b(a|an|the)\b', ' ', text). A match needs a
      word boundary on both sides, so it is exactly a maximal run of \w
      characters spelling an article; each such run becomes one space. */
  function RemoveArticles(s: string): (r: string)
    ensures forall c :: c in r ==> c in s || c == ' '
    decreases |s|
  {
    if s == [] then []
    else if !IsWordChar(s[0]) then [s[0]] + RemoveArticles(s[1..])
    else
      var k := WordRun(s);
      (if IsArticle(s[..k]) then " " else s[..k]) + RemoveArticles(s[k..])
  }

  /** Length of the longest prefix of `s` without whitespace. */
  function NonSpaceRun(s: string): (k: nat)
    ensures k <= |s|
    ensures forall i :: 0 <= i < k ==> !IsSpace(s[i])
    ensures k < |s| ==> IsSpace(s[k])
  {
    if s == [] || IsSpace(s[0]) then 0 else 1 + NonSpaceRun(s[1..])
  }

  /** `text.split()`: the maximal whitespace-free runs, in order. */
  function Split(s: string): (ts: seq<string>)
    ensures AllTokens(ts)
    ensures forall j, c :: 0 <= j < |ts| && c in ts[j] ==> c in s
    decreases |s|
  {
    if s == [] then []
    else if IsSpace(s[0]) then
      assert forall c :: c in s[1..] ==> c in s;
      Split(s[1..])
    else
      var k := NonSpaceRun(s);
      assert forall c :: c in s[..k] ==> c in s;
      assert forall c :: c in s[k..] ==> c in s;
      [s[..k]] + Split(s[k..])
  }

  /** `' '.join(ts)` */
  function Join(ts: seq<string>): string
  {
    if ts == [] then []
    else if |ts| == 1 then ts[0]
    else ts[0] + " " + Join(ts[1..])
  }

  /** `white_space_fix`: ' '.join(text.split()). */
  function WhiteSpaceFix(s: string): (r: string)
    ensures WellSpaced(r)
    ensures Split(r) == Split(s)
    ensures forall c :: c in r && c != ' ' ==> c in s
  {
    var ts := Split(s);
    JoinWellSpaced(ts);
    SplitJoin(ts);
    JoinChars(ts);
    Join(ts)
  }

  /** `normalize_text`: lower, strip punctuation, drop articles, fix whitespace. */
  function Normalize(s: string): (r: string)
    ensures forall i :: 0 <= i < |r| ==> !IsUpper(r[i]) && !IsPunctuation(r[i])
    ensures WellSpaced(r)
  {
    var low := Lower(s);
    var r := WhiteSpaceFix(RemoveArticles(RemovePunctuation(low)));
    RemovePunctuationMembers(low);
    assert forall c :: c in low ==> !IsUpper(c);
    r
  }

  /** Normalizing printable text yields printable text. */
  lemma NormalizePrintable(s: string)
    requires PrintableText(s)
    ensures PrintableText(Normalize(s))
  {
    var low := Lower(s);
    RemovePunctuationMembers(low);
    assert forall c :: c in low ==> IsPrintable(c);
  }

  function DropArticles(ts: seq<string>): (us: seq<string>)
    ensures NoArticleTokens(us)
    ensures |us| <= |ts|
  {
    if ts == [] then []
    else (if IsArticle(ts[0]) then [] else [ts[0]]) + DropArticles(ts[1..])
  }

  /* ---------------------------------------------------------------------
     Substring test and the relaxed match
     --------------------------------------------------------------------- */

  predicate IsPrefix(t: string, s: string) { |t| <= |s| && s[..|t|] == t }

  /** `t in s` for Python strings, scanning start positions left to right. */
  predicate IsSubstring(t: string, s: string)
    decreases |s|
  {
    IsPrefix(t, s) || (|s| > 0 && IsSubstring(t, s[1..]))
  }

  /** `t` occurs in `s` starting at index `i`. */
  predicate OccursAt(t: string, s: string, i: int) {
    0 <= i && i + |t| <= |s| && s[i..i + |t|] == t
  }

  /** Either normalized string contained in the other. */
  predicate Related(a: string, b: string) { IsSubstring(a, b) || IsSubstring(b, a) }

  /** The loop of `match` over the gold answers from position k on, with the
      prediction already normalized. */
  function MatchNormalized(normPred: string, golds: seq<string>, k: nat): (b: bool)
    requires k <= |golds|
    ensures b <==> exists j :: k <= j < |golds| && Related(Normalize(golds[j]), normPred)
    decreases |golds| - k
  {
    if k == |golds| then false
    else if Related(Normalize(golds[k]), normPred) then true
    else MatchNormalized(normPred, golds, k + 1)
  }

  /** `match(prediction, ground_truths)` */
  function Match(prediction: string, golds: seq<string>): (b: bool)
    ensures b <==> exists j :: 0 <= j < |golds| && Related(Normalize(golds[j]), Normalize(prediction))
  {
    MatchNormalized(Normalize(prediction), golds, 0)
  }

  /* ---------------------------------------------------------------------
     Lemmas: splitting and joining
     --------------------------------------------------------------------- */

  lemma {:induction false} NonSpaceRunOfToken(t: string, rest: string)
    requires IsToken(t)
    requires rest == [] || IsSpace(rest[0])
    ensures NonSpaceRun(t + rest) == |t|
    decreases |t|
  {
    var s := t + rest;
    if |t| > 1 {
      assert s[1..] == t[1..] + rest;
      NonSpaceRunOfToken(t[1..], rest);
    } else {
      assert s[1..] == rest;
    }
  }

  /** Splitting a token followed by whitespace (or nothing) yields that token first. */
  lemma {:induction false} SplitToken(t: string, rest: string)
    requires IsToken(t)
    requires rest == [] || IsSpace(rest[0])
    ensures Split(t + rest) == [t] + Split(rest)
  {
    var s := t + rest;
    NonSpaceRunOfToken(t, rest);
    assert s[..|t|] == t;
    assert s[|t|..] == rest;
  }

  lemma SplitLeadingSpace(c: char, rest: string)
    requires IsSpace(c)
    ensures Split([c] + rest) == Split(rest)
  {
    assert ([c] + rest)[1..] == rest;
  }

  lemma {:induction false} JoinShape(ts: seq<string>)
    requires AllTokens(ts)
    requires |ts| > 0
    ensures |Join(ts)| > 0
    ensures !IsSpace(Join(ts)[0]) && Join(ts)[0] == ts[0][0]
    ensures !IsSpace(Join(ts)[|Join(ts)| - 1])
  {
    if |ts| > 1 {
      JoinShape(ts[1..]);
    }
  }

  lemma {:induction false} JoinWellSpaced(ts: seq<string>)
    requires AllTokens(ts)
    ensures WellSpaced(Join(ts))
  {
    if |ts| > 1 {
      var rest := Join(ts[1..]);
      JoinWellSpaced(ts[1..]);
      JoinShape(ts[1..]);
      var r := ts[0] + " " + rest;
      assert r == Join(ts);
      var n0 := |ts[0]|;
      forall i | 0 <= i < |r| && IsSpace(r[i])
        ensures r[i] == ' ' && 0 < i < |r| - 1 && !IsSpace(r[i - 1]) && !IsSpace(r[i + 1])
      {
        if i < n0 {
          assert false;
        } else if i == n0 {
          assert r[i + 1] == rest[0];
        } else {
          assert r[i] == rest[i - n0 - 1];
          if i - 1 > n0 {
            assert r[i - 1] == rest[i - n0 - 2];
          }
          assert r[i + 1] == rest[i - n0];
        }
      }
    }
  }

  /** Round trip: splitting the join of tokens gives the tokens back. */
  lemma {:induction false} SplitJoin(ts: seq<string>)
    requires AllTokens(ts)
    ensures Split(Join(ts)) == ts
  {
    if ts == [] {
    } else if |ts| == 1 {
      SplitToken(ts[0], []);
      assert ts[0] + [] == ts[0];
    } else {
      var rest := Join(ts[1..]);
      SplitJoin(ts[1..]);
      assert Join(ts) == ts[0] + (" " + rest);
      SplitToken(ts[0], " " + rest);
      SplitLeadingSpace(' ', rest);
    }
  }

  lemma {:induction false} JoinChars(ts: seq<string>)
    ensures forall c :: c in Join(ts) && c != ' ' ==> exists j :: 0 <= j < |ts| && c in ts[j]
  {
    if |ts| > 1 {
      JoinChars(ts[1..]);
      forall c | c in Join(ts) && c != ' '
        ensures exists j :: 0 <= j < |ts| && c in ts[j]
      {
        assert Join(ts) == ts[0] + " " + Join(ts[1..]);
        if c !in ts[0] {
          var j :| 0 <= j < |ts[1..]| && c in ts[1..][j];
          assert c in ts[j + 1];
        }
      }
    } else if |ts| == 1 {
      assert forall c :: c in Join(ts) ==> c in ts[0];
    }
  }

  /* ---------------------------------------------------------------------
     Lemmas: article removal on split text
     --------------------------------------------------------------------- */

  /** Every character is a \w character or whitespace. */
  predicate WordsAndSpaces(s: string) {
    forall i :: 0 <= i < |s| ==> IsWordChar(s[i]) || IsSpace(s[i])
  }

  lemma {:induction false} WordRunIsNonSpaceRun(s: string)
    requires WordsAndSpaces(s)
    ensures WordRun(s) == NonSpaceRun(s)
  {
    if s != [] && IsWordChar(s[0]) {
      WordRunIsNonSpaceRun(s[1..]);
    }
  }

  /** On text made of words and spaces, dropping articles before splitting is
      the same as splitting and then dropping the article tokens. */
  lemma {:induction false} SplitRemoveArticles(s: string)
    requires WordsAndSpaces(s)
    ensures Split(RemoveArticles(s)) == DropArticles(Split(s))
    decreases |s|
  {
    if s == [] {
    } else if !IsWordChar(s[0]) {
      SplitRemoveArticles(s[1..]);
      SplitLeadingSpace(s[0], RemoveArticles(s[1..]));
    } else {
      var k := WordRun(s);
      WordRunIsNonSpaceRun(s);
      var tail := s[k..];
      var rest := RemoveArticles(tail);
      SplitRemoveArticles(tail);
      assert Split(s) == [s[..k]] + Split(tail);
      assert Split(s)[1..] == Split(tail);
      if IsArticle(s[..k]) {
        SplitLeadingSpace(' ', rest);
      } else {
        assert tail != [] ==> rest[0] == tail[0];
        SplitToken(s[..k], rest);
      }
    }
  }

  lemma {:induction false} DropArticlesNoop(ts: seq<string>)
    requires NoArticleTokens(ts)
    ensures DropArticles(ts) == ts
  {
    if ts != [] {
      DropArticlesNoop(ts[1..]);
    }
  }

  lemma {:induction false} RemovePunctuationNoop(s: string)
    requires forall i :: 0 <= i < |s| ==> !IsPunctuation(s[i])
    ensures RemovePunctuation(s) == s
  {
    if s != [] {
      RemovePunctuationNoop(s[1..]);
    }
  }

  lemma LowerNoop(s: string)
    requires forall i :: 0 <= i < |s| ==> !IsUpper(s[i])
    ensures Lower(s) == s
  {
  }

  /** After lowering and stripping punctuation, printable text holds only
      lower-case letters, digits and spaces. */
  lemma CleanedIsWordsAndSpaces(s: string)
    requires PrintableText(s)
    ensures WordsAndSpaces(RemovePunctuation(Lower(s)))
  {
    var low := Lower(s);
    var x := RemovePunctuation(low);
    forall i | 0 <= i < |x|
      ensures IsWordChar(x[i]) || IsSpace(x[i])
    {
      var c := x[i];
      RemovePunctuationMembers(low);
      assert c in x;
      assert c in low && !IsPunctuation(c);
      var j :| 0 <= j < |low| && low[j] == c;
      assert IsPrintable(s[j]);
      PrintableClass(c);
    }
  }

  /** A printable character that is not punctuation is a word character or a space. */
  lemma PrintableClass(c: char)
    requires IsPrintable(c) && !IsPunctuation(c)
    ensures IsWordChar(c) || IsSpace(c)
  {
  }

  /* ---------------------------------------------------------------------
     Lemmas: what normalize_text guarantees
     --------------------------------------------------------------------- */

  /** The tokens of the normalized text are the tokens of the lowered,
      punctuation-free text with every "a", "an" and "the" removed. */
  lemma NormalizeTokens(s: string)
    requires PrintableText(s)
    ensures Split(Normalize(s)) == DropArticles(Split(RemovePunctuation(Lower(s))))
    ensures NoArticleTokens(Split(Normalize(s)))
  {
    var x := RemovePunctuation(Lower(s));
    CleanedIsWordsAndSpaces(s);
    SplitRemoveArticles(x);
  }

  /** Normalizing twice is the same as normalizing once. */
  lemma NormalizeIdempotent(s: string)
    requires PrintableText(s)
    ensures Normalize(Normalize(s)) == Normalize(s)
  {
    var y := Normalize(s);
    NormalizeTokens(s);
    LowerNoop(y);
    RemovePunctuationNoop(y);
    assert Normalize(y) == WhiteSpaceFix(RemoveArticles(y));
    NormalizedIsWordsAndSpaces(s);
    SplitRemoveArticles(y);
    DropArticlesNoop(Split(y));
    assert Split(RemoveArticles(y)) == Split(y);
    WhiteSpaceFixIdempotent(RemoveArticles(RemovePunctuation(Lower(s))));
  }

  lemma NormalizedIsWordsAndSpaces(s: string)
    requires PrintableText(s)
    ensures WordsAndSpaces(Normalize(s))
  {
    var y := Normalize(s);
    NormalizePrintable(s);
    forall i | 0 <= i < |y|
      ensures IsWordChar(y[i]) || IsSpace(y[i])
    {
      assert IsPrintable(y[i]);
    }
  }

  /** Fixing whitespace twice is the same as fixing it once. */
  lemma WhiteSpaceFixIdempotent(s: string)
    ensures WhiteSpaceFix(WhiteSpaceFix(s)) == WhiteSpaceFix(s)
  {
  }

  /** Normalization does not see letter case. */
  lemma NormalizeIgnoresCase(s: string)
    ensures Normalize(Lower(s)) == Normalize(s)
  {
    LowerNoop(Lower(s));
  }

  /** A character survives punctuation removal exactly when it occurs in the
      input and is not punctuation. */
  lemma {:induction false} RemovePunctuationMembers(s: string)
    ensures forall c :: c in RemovePunctuation(s) <==> c in s && !IsPunctuation(c)
  {
    if s != [] {
      RemovePunctuationMembers(s[1..]);
      assert s == [s[0]] + s[1..];
    }
  }

  /** On a single character, punctuation removal keeps it exactly when it is
      not punctuation. */
  lemma RemovePunctuationChar(c: char)
    ensures RemovePunctuation([c]) == if IsPunctuation(c) then [] else [c]
  {
    assert [c][1..] == [];
  }

  /** Punctuation removal works character by character: it distributes over
      concatenation, so with RemovePunctuationChar it is determined on every string. */
  lemma {:induction false} RemovePunctuationAppend(a: string, b: string)
    ensures RemovePunctuation(a + b) == RemovePunctuation(a) + RemovePunctuation(b)
  {
    if a == [] {
      assert a + b == b;
    } else {
      var head := if IsPunctuation(a[0]) then [] else [a[0]];
      RemovePunctuationAppend(a[1..], b);
      ConcatTail(a, b);
      assert RemovePunctuation(a + b) == head + RemovePunctuation(a[1..] + b);
      assert RemovePunctuation(a) == head + RemovePunctuation(a[1..]);
      var x, y := RemovePunctuation(a[1..]), RemovePunctuation(b);
      ConcatAssoc(head, x, y);
    }
  }

  lemma ConcatTail<T>(a: seq<T>, b: seq<T>)
    requires a != []
    ensures (a + b)[0] == a[0] && (a + b)[1..] == a[1..] + b
  {
  }

  lemma ConcatAssoc<T>(a: seq<T>, b: seq<T>, c: seq<T>)
    ensures a + (b + c) == (a + b) + c
  {
  }

  lemma LowerAppend(a: string, b: string)
    ensures Lower(a + b) == Lower(a) + Lower(b)
  {
    assert forall i :: 0 <= i < |a| ==> (a + b)[i] == a[i];
    assert forall i :: |a| <= i < |a + b| ==> (a + b)[i] == b[i - |a|];
  }

  /** Lower-casing a character never turns it into punctuation or out of it. */
  lemma LowerCharPunctuation(c: char)
    ensures IsPunctuation(LowerChar(c)) <==> IsPunctuation(c)
  {
  }

  /** Lower-casing and punctuation removal can be done in either order. */
  lemma {:induction false} LowerRemovePunctuation(s: string)
    ensures Lower(RemovePunctuation(s)) == RemovePunctuation(Lower(s))
  {
    if s != [] {
      var head := if IsPunctuation(s[0]) then [] else [s[0]];
      LowerRemovePunctuation(s[1..]);
      LowerAppend(head, RemovePunctuation(s[1..]));
      assert s == [s[0]] + s[1..];
      LowerAppend([s[0]], s[1..]);
      LowerCharPunctuation(s[0]);
      var low := Lower(s);
      assert low[0] == LowerChar(s[0]) && low[1..] == Lower(s[1..]);
      assert Lower(head) == if IsPunctuation(s[0]) then [] else [LowerChar(s[0])];
    }
  }

  /** Removing punctuation twice is removing it once. */
  lemma RemovePunctuationTwice(s: string)
    ensures RemovePunctuation(RemovePunctuation(s)) == RemovePunctuation(s)
  {
    RemovePunctuationNoop(RemovePunctuation(s));
  }

  /** Normalization does not see punctuation. */
  lemma NormalizeIgnoresPunctuation(s: string)
    ensures Normalize(RemovePunctuation(s)) == Normalize(s)
  {
    LowerRemovePunctuation(s);
    RemovePunctuationTwice(Lower(s));
  }

  lemma WordRunOfThe(z: string)
    ensures WordRun("the " + z) == 3
  {
    var s := "the " + z;
    assert s[1..] == "he " + z;
    assert ("he " + z)[1..] == "e " + z;
    assert ("e " + z)[1..] == " " + z;
    assert WordRun(" " + z) == 0;
    assert WordRun("e " + z) == 1;
    assert WordRun("he " + z) == 2;
  }

  /** `remove_articles` turns a leading "the " into two blanks. */
  lemma RemoveArticlesLeadingThe(z: string)
    ensures RemoveArticles("the " + z) == "  " + RemoveArticles(z)
  {
    var s := "the " + z;
    WordRunOfThe(z);
    assert s[..3] == "the";
    assert s[3..] == " " + z;
    assert (" " + z)[1..] == z;
  }

  /** Lowering and stripping punctuation leave a leading "the " in place. */
  lemma CleanLeadingThe(s: string)
    ensures RemovePunctuation(Lower("the " + s)) == "the " + RemovePunctuation(Lower(s))
  {
    LowerAppend("the ", s);
    LowerNoop("the ");
    RemovePunctuationAppend("the ", Lower(s));
    RemovePunctuationNoop("the ");
  }

  /** Leading blanks do not survive `white_space_fix`. */
  lemma WhiteSpaceFixLeadingBlanks(w: string)
    ensures WhiteSpaceFix("  " + w) == WhiteSpaceFix(w)
  {
    SplitLeadingSpace(' ', w);
    SplitLeadingSpace(' ', " " + w);
    assert "  " + w == [' '] + (" " + w);
  }

  /** Normalization does not see a leading article "the". */
  lemma NormalizeIgnoresLeadingThe(s: string)
    ensures Normalize("the " + s) == Normalize(s)
  {
    CleanLeadingThe(s);
    var z := RemovePunctuation(Lower(s));
    RemoveArticlesLeadingThe(z);
    WhiteSpaceFixLeadingBlanks(RemoveArticles(z));
  }

  /* ---------------------------------------------------------------------
     Lemmas: substring search and match
     --------------------------------------------------------------------- */

  /** The left-to-right scan finds `t` exactly when it occurs at some index. */
  lemma {:induction false} SubstringIffOccurs(t: string, s: string)
    ensures IsSubstring(t, s) <==> exists i :: OccursAt(t, s, i)
    decreases |s|
  {
    if IsPrefix(t, s) {
      assert OccursAt(t, s, 0);
    } else if |s| > 0 {
      SubstringIffOccurs(t, s[1..]);
      if IsSubstring(t, s[1..]) {
        var i :| OccursAt(t, s[1..], i);
        assert s[1..][i..i + |t|] == s[i + 1..i + 1 + |t|];
        assert OccursAt(t, s, i + 1);
      }
      if i :| OccursAt(t, s, i) {
        assert i != 0;
        assert s[1..][i - 1..i - 1 + |t|] == s[i..i + |t|];
        assert OccursAt(t, s[1..], i - 1);
      }
    } else {
      if i :| OccursAt(t, s, i) {
        assert false;
      }
    }
  }

  /** For a single gold answer the relaxed match is symmetric. */
  lemma MatchSymmetric(p: string, g: string)
    ensures Match(p, [g]) == Match(g, [p])
  {
    MatchSingle(p, g);
    MatchSingle(g, p);
  }

  /** Against one gold answer, matching is relatedness of the two normalized strings. */
  lemma MatchSingle(p: string, g: string)
    ensures Match(p, [g]) == Related(Normalize(g), Normalize(p))
  {
    assert [g][0] == g;
  }

  /** A prediction that normalizes to "" matches every non-empty gold list. */
  lemma EmptyPredictionMatches(p: string, golds: seq<string>)
    requires Normalize(p) == ""
    requires |golds| > 0
    ensures Match(p, golds)
  {
    assert IsPrefix("", Normalize(golds[0]));
    assert Related(Normalize(golds[0]), Normalize(p));
  }

  /** With no gold answers nothing matches. */
  lemma NoGoldsNoMatch(p: string)
    ensures !Match(p, [])
  {
  }

  /** Stripping the punctuation of a prediction does not change its verdict. */
  lemma MatchIgnoresPunctuation(p: string, golds: seq<string>)
    ensures Match(RemovePunctuation(p), golds) == Match(p, golds)
  {
    NormalizeIgnoresPunctuation(p);
  }

  /** Prefixing a prediction with the article "the" does not change its verdict. */
  lemma MatchIgnoresLeadingThe(p: string, golds: seq<string>)
    ensures Match("the " + p, golds) == Match(p, golds)
  {
    NormalizeIgnoresLeadingThe(p);
  }

  /** Answers that differ only in letter case match each other. */
  lemma CaseInsensitiveMatch(p: string, g: string)
    requires Lower(p) == Lower(g)
    ensures Match(p, [g])
  {
    NormalizeIgnoresCase(p);
    NormalizeIgnoresCase(g);
    assert IsPrefix(Normalize(g), Normalize(p));
  }

  /** "paris" is graded correct against the gold answer "Paris". */
  lemma MatchParisExample()
    ensures Match("paris", ["Paris"])
  {
    assert Lower("paris") == "paris";
    assert Lower("Paris") == "paris";
    CaseInsensitiveMatch("paris", "Paris");
  }

  /** "The." normalizes to the empty string ... */
  lemma NormalizeTheDot()
    ensures Normalize("The.") == ""
  {
    LowerOfTheDot();
    PunctuationOfTheDot();
    ArticleOfThe();
    BlankFixesToEmpty();
  }

  lemma LowerOfTheDot()
    ensures Lower("The.") == "the."
  {
  }

  lemma BlankFixesToEmpty()
    ensures WhiteSpaceFix(" ") == ""
  {
    assert Split(" ") == [];
  }

  lemma PunctuationOfTheDot()
    ensures RemovePunctuation("the.") == "the"
  {
    assert RemovePunctuation(".") == "";
    assert RemovePunctuation("e.") == "e";
    assert RemovePunctuation("he.") == "he";
  }

  lemma ArticleOfThe()
    ensures RemoveArticles("the") == " "
  {
    assert WordRun("e") == 1;
    assert WordRun("he") == 2;
    assert WordRun("the") == 3;
  }

  /** ... so it matches every non-empty list of gold answers. */
  lemma TheDotMatches(golds: seq<string>)
    requires |golds| > 0
    ensures Match("The.", golds)
  {
    NormalizeTheDot();
    EmptyPredictionMatches("The.", golds);
  }
}
