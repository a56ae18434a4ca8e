/**
 * Normalisation of a constituency name into the class-name key that identifies
 * its region in the map's SVG document (`slugify`).
 *
 * The original applies a chain of regular-expression rewrites; each one is a
 * function below. `Key` is an independent one-pass description of the same
 * result, and `SlugifyIsKey` proves the two agree.
 */
module Slug {

  /** Whitespace as matched by `\s` in a JavaScript regular expression. */
  predicate IsSpace(c: char) {
    || c == '\t' || c == '\n' || c == '\U{B}' || c == '\U{C}' || c == '\r' || c == ' '
    || c == '\U{A0}' || c == '\U{1680}' || '\U{2000}' <= c <= '\U{200A}'
    || c == '\U{2028}' || c == '\U{2029}' || c == '\U{202F}' || c == '\U{205F}'
    || c == '\U{3000}' || c == '\U{FEFF}'
  }

  predicate IsUpper(c: char) {
    'A' <= c <= 'Z'
  }

  /** Characters matched by `\w`: ASCII letters, digits and the underscore. */
  predicate IsWord(c: char) {
    'a' <= c <= 'z' || 'A' <= c <= 'Z' || '0' <= c <= '9' || c == '_'
  }

  /** Whitespace and hyphens both end a word of the key. */
  predicate IsSeparator(c: char) {
    IsSpace(c) || c == '-'
  }

  /** Characters a slug may contain. */
  predicate IsSlugChar(c: char) {
    'a' <= c <= 'z' || '0' <= c <= '9' || c == '_' || c == '-'
  }

  predicate AllSlugChars(s: string) {
    forall i :: 0 <= i < |s| ==> IsSlugChar(s[i])
  }

  predicate NoDoubleHyphen(s: string) {
    forall i :: 0 <= i < |s| - 1 ==> !(s[i] == '-' && s[i + 1] == '-')
  }

  /** The shape of every key `slugify` can produce. */
  predicate IsSlug(s: string) {
    && AllSlugChars(s)
    && NoDoubleHyphen(s)
    && (|s| > 0 ==> s[0] != '-' && s[|s| - 1] != '-')
  }

  predicate NoUpper(s: string) {
    forall i :: 0 <= i < |s| ==> !IsUpper(s[i])
  }

  predicate NoSpace(s: string) {
    forall i :: 0 <= i < |s| ==> !IsSpace(s[i])
  }

  // ---------------------------------------------------------------------------
  // The passes of `slugify`, in the order the original applies them
  // ---------------------------------------------------------------------------

  /** `toLowerCase()` on one character, for the ASCII letters. */
  function LowerChar(c: char): char {
    if IsUpper(c) then (c as int + 32) as char else c
  }

  /** `toLowerCase()`. */
  function Lower(s: string): string {
    if s == [] then [] else [LowerChar(s[0])] + Lower(s[1..])
  }

  /** Removes the whitespace at the front of `s`. */
  function DropSpaces(s: string): (r: string)
    ensures |r| <= |s| && r == s[|s| - |r|..]
    ensures r == [] || !IsSpace(r[0])
    ensures forall i :: 0 <= i < |s| - |r| ==> IsSpace(s[i])
  {
    if s != [] && IsSpace(s[0]) then DropSpaces(s[1..]) else s
  }

  /** `replace(/\s+/g, '-')`: every maximal run of whitespace becomes one hyphen. */
  function SpacesToHyphens(s: string): string
    decreases |s|
  {
    if s == [] then []
    else if IsSpace(s[0]) then "-" + SpacesToHyphens(DropSpaces(s[1..]))
    else [s[0]] + SpacesToHyphens(s[1..])
  }

  /** `replace(/[^\w\-]+/g, '')`: keeps only word characters and hyphens. */
  function StripNonWord(s: string): string {
    if s == [] then []
    else if IsWord(s[0]) || s[0] == '-' then [s[0]] + StripNonWord(s[1..])
    else StripNonWord(s[1..])
  }

  /** Removes the hyphens at the front of `s`; also `replace(/^-+/, '')`. */
  function DropHyphens(s: string): (r: string)
    ensures |r| <= |s| && r == s[|s| - |r|..]
    ensures r == [] || r[0] != '-'
    ensures forall i :: 0 <= i < |s| - |r| ==> s[i] == '-'
  {
    if s != [] && s[0] == '-' then DropHyphens(s[1..]) else s
  }

  /** `replace(/\-\-+/g, '-')`: every run of two or more hyphens becomes one. */
  function CollapseHyphens(s: string): string
    decreases |s|
  {
    if s == [] then []
    else if |s| >= 2 && s[0] == '-' && s[1] == '-' then "-" + CollapseHyphens(DropHyphens(s[2..]))
    else [s[0]] + CollapseHyphens(s[1..])
  }

  /** `replace(/-+$/, '')`: removes the hyphens at the end of `s`. */
  function TrimEnd(s: string): (r: string)
    ensures |r| <= |s| && r == s[..|r|]
    ensures r == [] || r[|r| - 1] != '-'
    ensures forall i :: |r| <= i < |s| ==> s[i] == '-'
  {
    if s != [] && s[|s| - 1] == '-' then TrimEnd(s[..|s| - 1]) else s
  }

  /** `slugify(text)` for a string argument. */
  function Slugify(text: string): string {
    TrimEnd(DropHyphens(CollapseHyphens(StripNonWord(SpacesToHyphens(Lower(text))))))
  }

  // ---------------------------------------------------------------------------
  // Reference definition: one left-to-right scan
  // ---------------------------------------------------------------------------

  /**
   * Progress of the scan: no word character emitted yet, the last character
   * that mattered was a word character, or a separator has been seen since the
   * last emitted word character.
   */
  datatype Scan = Start | InWord | Pending

  function AfterSeparator(st: Scan): Scan {
    if st == Start then Start else Pending
  }

  /** What reading `c` in state `st` adds to the key. */
  function Emit(c: char, st: Scan): string {
    if IsWord(c) then (if st == Pending then "-" else "") + [LowerChar(c)] else ""
  }

  /** The state after reading `c` in state `st`. */
  function Next(c: char, st: Scan): Scan {
    if IsWord(c) then InWord else if IsSeparator(c) then AfterSeparator(st) else st
  }

  /**
   * The key of `s` when scanning starts in state `st`: the lower-cased word
   * characters, one hyphen between two words separated by whitespace or
   * hyphens, every other character ignored.
   */
  function KeyFrom(s: string, st: Scan): string {
    if s == [] then [] else Emit(s[0], st) + KeyFrom(s[1..], Next(s[0], st))
  }

  function Key(s: string): string {
    KeyFrom(s, Start)
  }

  /** The scan state after reading all of `s` from state `st`. */
  function ScanState(s: string, st: Scan): Scan {
    if s == [] then st else ScanState(s[1..], Next(s[0], st))
  }

  /** Scanning a string that starts with `x`. */
  lemma KeyFromCons(x: char, t: string, st: Scan)
    ensures KeyFrom([x] + t, st) == Emit(x, st) + KeyFrom(t, Next(x, st))
  {
    assert ([x] + t)[0] == x && ([x] + t)[1..] == t;
  }

  // ---------------------------------------------------------------------------
  // Every pass leaves the key unchanged
  // ---------------------------------------------------------------------------

  lemma {:induction false} KeyOfLower(s: string, st: Scan)
    ensures KeyFrom(Lower(s), st) == KeyFrom(s, st)
  {
    if s != [] {
      var c := LowerChar(s[0]);
      assert Emit(c, st) == Emit(s[0], st) && Next(c, st) == Next(s[0], st);
      KeyFromCons(c, Lower(s[1..]), st);
      KeyOfLower(s[1..], Next(s[0], st));
    }
  }

  /** Reading a separator only moves the scan to `AfterSeparator`. */
  lemma KeyFromSeparator(s: string, st: Scan)
    requires s != [] && IsSeparator(s[0])
    ensures KeyFrom(s, st) == KeyFrom(s[1..], AfterSeparator(st))
  {
  }

  lemma {:induction false} KeyOfDropSpaces(s: string, st: Scan)
    requires st != InWord
    ensures KeyFrom(DropSpaces(s), st) == KeyFrom(s, st)
  {
    if s != [] && IsSpace(s[0]) {
      assert AfterSeparator(st) == st;
      KeyFromSeparator(s, st);
      KeyOfDropSpaces(s[1..], st);
    }
  }

  lemma {:induction false} KeyOfSpacesToHyphens(s: string, st: Scan)
    ensures KeyFrom(SpacesToHyphens(s), st) == KeyFrom(s, st)
    decreases |s|
  {
    if s == [] {
    } else if IsSpace(s[0]) {
      var sep := AfterSeparator(st);
      var d := DropSpaces(s[1..]);
      calc {
        KeyFrom(SpacesToHyphens(s), st);
        KeyFrom(['-'] + SpacesToHyphens(d), st);
        { KeyFromCons('-', SpacesToHyphens(d), st); }
        KeyFrom(SpacesToHyphens(d), sep);
        { KeyOfSpacesToHyphens(d, sep); }
        KeyFrom(d, sep);
        { KeyOfDropSpaces(s[1..], sep); }
        KeyFrom(s[1..], sep);
        { KeyFromSeparator(s, st); }
        KeyFrom(s, st);
      }
    } else {
      assert SpacesToHyphens(s) == [s[0]] + SpacesToHyphens(s[1..]);
      KeyFromCons(s[0], SpacesToHyphens(s[1..]), st);
      KeyOfSpacesToHyphens(s[1..], Next(s[0], st));
    }
  }

  lemma {:induction false} KeyOfStripNonWord(s: string, st: Scan)
    requires NoSpace(s)
    ensures KeyFrom(StripNonWord(s), st) == KeyFrom(s, st)
  {
    if s != [] {
      var t := s[1..];
      assert NoSpace(t);
      if IsWord(s[0]) || s[0] == '-' {
        KeyFromCons(s[0], StripNonWord(t), st);
        KeyOfStripNonWord(t, Next(s[0], st));
      } else {
        assert Emit(s[0], st) == "" && Next(s[0], st) == st;
        KeyOfStripNonWord(t, st);
      }
    }
  }

  lemma {:induction false} KeyOfDropHyphens(s: string, st: Scan)
    requires st != InWord
    ensures KeyFrom(DropHyphens(s), st) == KeyFrom(s, st)
  {
    if s != [] && s[0] == '-' {
      assert AfterSeparator(st) == st;
      KeyFromSeparator(s, st);
      KeyOfDropHyphens(s[1..], st);
    }
  }

  lemma {:induction false} KeyOfCollapseHyphens(s: string, st: Scan)
    ensures KeyFrom(CollapseHyphens(s), st) == KeyFrom(s, st)
    decreases |s|
  {
    if s == [] {
    } else if |s| >= 2 && s[0] == '-' && s[1] == '-' {
      var sep := AfterSeparator(st);
      var d := DropHyphens(s[2..]);
      assert s[1..][1..] == s[2..];
      calc {
        KeyFrom(CollapseHyphens(s), st);
        KeyFrom(['-'] + CollapseHyphens(d), st);
        { KeyFromCons('-', CollapseHyphens(d), st); }
        KeyFrom(CollapseHyphens(d), sep);
        { KeyOfCollapseHyphens(d, sep); }
        KeyFrom(d, sep);
        { KeyOfDropHyphens(s[2..], sep); }
        KeyFrom(s[2..], sep);
        { KeyFromSeparator(s[1..], sep); }
        KeyFrom(s[1..], sep);
        { KeyFromSeparator(s, st); }
        KeyFrom(s, st);
      }
    } else {
      assert CollapseHyphens(s) == [s[0]] + CollapseHyphens(s[1..]);
      KeyFromCons(s[0], CollapseHyphens(s[1..]), st);
      KeyOfCollapseHyphens(s[1..], Next(s[0], st));
    }
  }

  lemma {:induction false} KeyOfAppendHyphen(s: string, st: Scan)
    ensures KeyFrom(s + "-", st) == KeyFrom(s, st)
  {
    if s != [] {
      assert s + "-" == [s[0]] + (s[1..] + "-");
      KeyFromCons(s[0], s[1..] + "-", st);
      KeyOfAppendHyphen(s[1..], Next(s[0], st));
    }
  }

  lemma {:induction false} KeyOfTrimEnd(s: string, st: Scan)
    ensures KeyFrom(TrimEnd(s), st) == KeyFrom(s, st)
  {
    if s != [] && s[|s| - 1] == '-' {
      var p := s[..|s| - 1];
      assert s == p + "-";
      KeyOfTrimEnd(p, st);
      KeyOfAppendHyphen(p, st);
    }
  }

  // ---------------------------------------------------------------------------
  // Shape of the result, pass by pass
  // ---------------------------------------------------------------------------

  lemma {:induction false} LowerHasNoUpper(s: string)
    ensures NoUpper(Lower(s))
  {
    if s != [] {
      LowerHasNoUpper(s[1..]);
      var l := Lower(s);
      assert l[0] == LowerChar(s[0]) && l[1..] == Lower(s[1..]);
    }
  }

  /** Neither an upper-case letter nor whitespace is introduced by putting `x` in front. */
  lemma PlainCons(x: char, c: string)
    requires !IsUpper(x) && !IsSpace(x) && NoUpper(c) && NoSpace(c)
    ensures NoUpper([x] + c) && NoSpace([x] + c)
  {
    var r := [x] + c;
    assert forall i :: 1 <= i < |r| ==> r[i] == c[i - 1];
  }

  lemma {:induction false} SpacesToHyphensShape(s: string)
    requires NoUpper(s)
    ensures NoUpper(SpacesToHyphens(s))
    ensures NoSpace(SpacesToHyphens(s))
    decreases |s|
  {
    if s == [] {
    } else if IsSpace(s[0]) {
      var t := s[1..];
      var d := DropSpaces(t);
      assert NoUpper(t);
      assert d == t[|t| - |d|..];
      assert forall i :: 0 <= i < |d| ==> d[i] == t[|t| - |d| + i];
      SpacesToHyphensShape(d);
      PlainCons('-', SpacesToHyphens(d));
      assert SpacesToHyphens(s) == ['-'] + SpacesToHyphens(d);
    } else {
      var t := s[1..];
      assert NoUpper(t);
      SpacesToHyphensShape(t);
      PlainCons(s[0], SpacesToHyphens(t));
      assert SpacesToHyphens(s) == [s[0]] + SpacesToHyphens(t);
    }
  }

  lemma {:induction false} StripNonWordGivesSlugChars(s: string)
    requires NoUpper(s)
    ensures AllSlugChars(StripNonWord(s))
  {
    if s != [] {
      var t := s[1..];
      assert NoUpper(t);
      StripNonWordGivesSlugChars(t);
      if IsWord(s[0]) || s[0] == '-' {
        SlugCharsCons(s[0], StripNonWord(t));
      }
    }
  }

  lemma {:induction false} CollapseHyphensHead(s: string)
    ensures |CollapseHyphens(s)| > 0 <==> |s| > 0
    ensures |s| > 0 ==> CollapseHyphens(s)[0] == s[0]
  {
  }

  lemma SlugCharsCons(x: char, c: string)
    requires IsSlugChar(x) && AllSlugChars(c)
    ensures AllSlugChars([x] + c)
  {
    var r := [x] + c;
    assert forall i :: 1 <= i < |r| ==> r[i] == c[i - 1];
  }

  lemma {:induction false} CollapseHyphensChars(s: string)
    requires AllSlugChars(s)
    ensures AllSlugChars(CollapseHyphens(s))
    decreases |s|
  {
    if s == [] {
    } else if |s| >= 2 && s[0] == '-' && s[1] == '-' {
      var t := s[2..];
      var d := DropHyphens(t);
      assert AllSlugChars(t);
      assert forall i :: 0 <= i < |d| ==> d[i] == t[|t| - |d| + i];
      CollapseHyphensChars(d);
      SlugCharsCons('-', CollapseHyphens(d));
      assert CollapseHyphens(s) == ['-'] + CollapseHyphens(d);
    } else {
      var t := s[1..];
      assert AllSlugChars(t);
      CollapseHyphensChars(t);
      SlugCharsCons(s[0], CollapseHyphens(t));
      assert CollapseHyphens(s) == [s[0]] + CollapseHyphens(t);
    }
  }

  /** Putting `x` in front of `c` creates no `--` unless both `x` and `c`'s first character are hyphens. */
  lemma NoDoubleHyphenCons(x: char, c: string)
    requires NoDoubleHyphen(c)
    requires x == '-' && |c| > 0 ==> c[0] != '-'
    ensures NoDoubleHyphen([x] + c)
  {
    var r := [x] + c;
    forall i | 0 <= i < |r| - 1
      ensures !(r[i] == '-' && r[i + 1] == '-')
    {
      if i > 0 {
        assert r[i] == c[i - 1] && r[i + 1] == c[i];
      }
    }
  }

  lemma {:induction false} CollapseHyphensNoDouble(s: string)
    ensures NoDoubleHyphen(CollapseHyphens(s))
    decreases |s|
  {
    if s == [] {
    } else if |s| >= 2 && s[0] == '-' && s[1] == '-' {
      var d := DropHyphens(s[2..]);
      CollapseHyphensNoDouble(d);
      CollapseHyphensHead(d);
      NoDoubleHyphenCons('-', CollapseHyphens(d));
    } else {
      CollapseHyphensNoDouble(s[1..]);
      CollapseHyphensHead(s[1..]);
      NoDoubleHyphenCons(s[0], CollapseHyphens(s[1..]));
    }
  }

  /** Dropping a prefix keeps the characters and the absence of `--`. */
  lemma SuffixShape(c: string, k: nat)
    requires k <= |c| && AllSlugChars(c) && NoDoubleHyphen(c)
    ensures AllSlugChars(c[k..]) && NoDoubleHyphen(c[k..])
  {
    var d := c[k..];
    assert forall i :: 0 <= i < |d| ==> d[i] == c[k + i];
  }

  /** Dropping a suffix keeps the characters, the absence of `--` and the first character. */
  lemma PrefixShape(c: string, k: nat)
    requires k <= |c| && AllSlugChars(c) && NoDoubleHyphen(c)
    ensures AllSlugChars(c[..k]) && NoDoubleHyphen(c[..k])
    ensures k > 0 ==> c[..k][0] == c[0]
  {
    var d := c[..k];
    assert forall i :: 0 <= i < |d| ==> d[i] == c[i];
  }

  /** Every key `slugify` produces has the slug shape. */
  lemma SlugifyIsSlug(text: string)
    ensures IsSlug(Slugify(text))
  {
    var l := Lower(text);
    LowerHasNoUpper(text);
    var sp := SpacesToHyphens(l);
    SpacesToHyphensShape(l);
    var w := StripNonWord(sp);
    StripNonWordGivesSlugChars(sp);
    var c := CollapseHyphens(w);
    CollapseHyphensChars(w);
    CollapseHyphensNoDouble(w);
    var d := DropHyphens(c);
    SuffixShape(c, |c| - |d|);
    var t := TrimEnd(d);
    PrefixShape(d, |t|);
    assert Slugify(text) == t;
  }

  // ---------------------------------------------------------------------------
  // Slugify agrees with the reference scan
  // ---------------------------------------------------------------------------

  /** Scanning a slug after a word character reproduces it. */
  lemma {:induction false} KeyFromInWordOfSlugTail(t: string)
    requires AllSlugChars(t) && NoDoubleHyphen(t)
    requires |t| > 0 ==> t[|t| - 1] != '-'
    ensures KeyFrom(t, InWord) == t
    decreases |t|
  {
    if t == [] {
    } else if t[0] == '-' {
      assert |t| >= 2 && t[1] != '-';
      var u := t[2..];
      assert AllSlugChars(u) && NoDoubleHyphen(u);
      KeyFromInWordOfSlugTail(u);
      assert t == ['-'] + ([t[1]] + u);
      KeyFromCons('-', [t[1]] + u, InWord);
      KeyFromCons(t[1], u, Pending);
    } else {
      var u := t[1..];
      assert AllSlugChars(u) && NoDoubleHyphen(u);
      KeyFromInWordOfSlugTail(u);
      assert t == [t[0]] + u;
      KeyFromCons(t[0], u, InWord);
    }
  }

  /** A slug is its own key. */
  lemma KeyOfSlug(t: string)
    requires IsSlug(t)
    ensures Key(t) == t
  {
    if t != [] {
      KeyFromInWordOfSlugTail(t[1..]);
      assert t == [t[0]] + t[1..];
    }
  }

  /** `slugify` computes the reference key. */
  lemma SlugifyIsKey(text: string)
    ensures Slugify(text) == Key(text)
  {
    var l := Lower(text);
    var sp := SpacesToHyphens(l);
    var w := StripNonWord(sp);
    var c := CollapseHyphens(w);
    var d := DropHyphens(c);
    var t := TrimEnd(d);
    KeyOfLower(text, Start);
    KeyOfSpacesToHyphens(l, Start);
    LowerHasNoUpper(text);
    SpacesToHyphensShape(l);
    KeyOfStripNonWord(sp, Start);
    KeyOfCollapseHyphens(w, Start);
    KeyOfDropHyphens(c, Start);
    KeyOfTrimEnd(d, Start);
    SlugifyIsSlug(text);
    KeyOfSlug(t);
  }

  // ---------------------------------------------------------------------------
  // Properties of slugify
  // ---------------------------------------------------------------------------

  /** Applying `slugify` to a key changes nothing. */
  lemma SlugifyIdempotent(text: string)
    ensures Slugify(Slugify(text)) == Slugify(text)
  {
    SlugifyIsSlug(text);
    SlugifyIsKey(Slugify(text));
    KeyOfSlug(Slugify(text));
  }

  /** Letter case does not affect the key. */
  lemma SlugifyIgnoresCase(text: string)
    ensures Slugify(Lower(text)) == Slugify(text)
  {
    SlugifyIsKey(text);
    SlugifyIsKey(Lower(text));
    KeyOfLower(text, Start);
  }

  lemma {:induction false} KeyFromEmptyIff(s: string, st: Scan)
    ensures KeyFrom(s, st) == [] <==> forall i :: 0 <= i < |s| ==> !IsWord(s[i])
  {
    if s != [] {
      KeyFromEmptyIff(s[1..], Next(s[0], st));
      assert forall i :: 1 <= i < |s| ==> s[i] == s[1..][i - 1];
      assert Emit(s[0], st) == [] <==> !IsWord(s[0]);
    }
  }

  /** The key is empty exactly when the name has no word character (empty or all-whitespace names included). */
  lemma SlugifyEmptyIff(text: string)
    ensures Slugify(text) == [] <==> forall i :: 0 <= i < |text| ==> !IsWord(text[i])
  {
    SlugifyIsKey(text);
    KeyFromEmptyIff(text, Start);
  }

  lemma {:induction false} KeyFromAppend(p: string, q: string, st: Scan)
    ensures KeyFrom(p + q, st) == KeyFrom(p, st) + KeyFrom(q, ScanState(p, st))
  {
    if p != [] {
      var nx := Next(p[0], st);
      assert p + q == [p[0]] + (p[1..] + q);
      KeyFromCons(p[0], p[1..] + q, st);
      KeyFromAppend(p[1..], q, nx);
      assert Emit(p[0], st) + (KeyFrom(p[1..], nx) + KeyFrom(q, ScanState(p[1..], nx)))
          == (Emit(p[0], st) + KeyFrom(p[1..], nx)) + KeyFrom(q, ScanState(p[1..], nx));
    } else {
      assert p + q == q;
    }
  }

  lemma {:induction false} ScanStateOfSeparators(w: string, st: Scan)
    requires |w| > 0 && forall i :: 0 <= i < |w| ==> IsSeparator(w[i])
    ensures ScanState(w, st) == AfterSeparator(st)
    ensures KeyFrom(w, st) == []
  {
    if |w| > 1 {
      ScanStateOfSeparators(w[1..], AfterSeparator(st));
    }
  }

  /** Scanning across a non-empty run of separators. */
  lemma KeyAcrossSeparators(p: string, w: string, q: string)
    requires |w| > 0 && forall i :: 0 <= i < |w| ==> IsSeparator(w[i])
    ensures Key(p + w + q) == Key(p) + KeyFrom(q, AfterSeparator(ScanState(p, Start)))
  {
    var st := ScanState(p, Start);
    var r := w + q;
    assert p + w + q == p + r;
    ScanStateOfSeparators(w, st);
    calc {
      KeyFrom(r, st);
      { KeyFromAppend(w, q, st); }
      KeyFrom(w, st) + KeyFrom(q, ScanState(w, st));
      [] + KeyFrom(q, AfterSeparator(st));
      KeyFrom(q, AfterSeparator(st));
    }
    KeyFromAppend(p, r, Start);
  }

  /**
   * A non-empty run of whitespace and hyphens counts as one separator, whatever
   * it is made of: replacing it by any other such run leaves the key unchanged.
   */
  lemma SlugifySeparatorRuns(p: string, w1: string, w2: string, q: string)
    requires |w1| > 0 && forall i :: 0 <= i < |w1| ==> IsSeparator(w1[i])
    requires |w2| > 0 && forall i :: 0 <= i < |w2| ==> IsSeparator(w2[i])
    ensures Slugify(p + w1 + q) == Slugify(p + w2 + q)
  {
    SlugifyIsKey(p + w1 + q);
    SlugifyIsKey(p + w2 + q);
    KeyAcrossSeparators(p, w1, q);
    KeyAcrossSeparators(p, w2, q);
  }

  lemma {:induction false} ScanStateOfWord(a: string, st: Scan)
    requires |a| > 0 && forall i :: 0 <= i < |a| ==> IsWord(a[i])
    ensures ScanState(a, st) == InWord
  {
    if |a| > 1 {
      ScanStateOfWord(a[1..], InWord);
    }
  }

  /** The key of a name made of the word `a`, the separator run `w` and the rest `b`. */
  lemma KeyOfTwoWords(a: string, w: string, b: string)
    requires |a| > 0 && forall i :: 0 <= i < |a| ==> IsWord(a[i])
    requires |w| > 0 && forall i :: 0 <= i < |w| ==> IsSeparator(w[i])
    ensures Key(a + w + b) == Key(a) + KeyFrom(b, Pending)
  {
    KeyAcrossSeparators(a, w, b);
    ScanStateOfWord(a, Start);
  }

  lemma KeyOfWordCardiff() ensures Key("CARDIFF") == "cardiff" { }
  lemma KeyOfWordCardiffMixed() ensures Key("Cardiff") == "cardiff" { }
  lemma KeyOfWordCentral() ensures KeyFrom("CENTRAL", Pending) == "-central" { }
  lemma KeyOfWordCentralMixed() ensures KeyFrom("Central", Pending) == "-central" { }

  /**
   * The two spellings of the example, with the words passed in as parameters:
   * binding the literals through the precondition keeps the solver from
   * unfolding `Key` over the whole concatenated string.
   */
  lemma KeyOfExampleUpper(a: string, w: string, b: string)
    requires a == "CARDIFF" && w == "   " && b == "CENTRAL"
    ensures Key(a + w + b) == "cardiff-central"
  {
    KeyOfTwoWords(a, w, b);
    KeyOfWordCardiff();
    KeyOfWordCentral();
  }

  lemma KeyOfExampleMixed(a: string, w: string, b: string)
    requires a == "Cardiff" && w == " " && b == "Central"
    ensures Key(a + w + b) == "cardiff-central"
  {
    KeyOfTwoWords(a, w, b);
    KeyOfWordCardiffMixed();
    KeyOfWordCentralMixed();
  }

  lemma SlugifyExampleUpper()
    ensures Slugify("CARDIFF   CENTRAL") == "cardiff-central"
  {
    KeyOfExampleUpper("CARDIFF", "   ", "CENTRAL");
    assert "CARDIFF" + "   " + "CENTRAL" == "CARDIFF   CENTRAL";
    SlugifyIsKey("CARDIFF   CENTRAL");
  }

  lemma SlugifyExampleMixed()
    ensures Slugify("Cardiff Central") == "cardiff-central"
  {
    KeyOfExampleMixed("Cardiff", " ", "Central");
    assert "Cardiff" + " " + "Central" == "Cardiff Central";
    SlugifyIsKey("Cardiff Central");
  }

  /** The documented example: case and the length of a whitespace run do not matter. */
  lemma SlugifyExample()
    ensures Slugify("CARDIFF   CENTRAL") == Slugify("Cardiff Central") == "cardiff-central"
  {
    SlugifyExampleUpper();
    SlugifyExampleMixed();
  }
}
