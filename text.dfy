/** Text normalisation of the season ripper: the filesystem-safe `slug`, the
    episode-number/title extraction from a card's text, the episode codes used
    for resume tracking and file names, absolute hrefs, and the range labels
    read from the episode-range chooser. */
module Text {
  import opened Base

  // ---------------------------------------------------------------------------
  // Stripping
  // ---------------------------------------------------------------------------

  /** Python's whitespace (`str.isspace()`, and the `\s` of a `str` regex). */
  predicate IsSpace(c: char) {
    ('\t' <= c <= '\r') || ('\U{1C}' <= c <= ' ') || c == '\U{85}' || c == '\U{A0}' ||
    c == '\U{1680}' || ('\U{2000}' <= c <= '\U{200A}') || c == '\U{2028}' || c == '\U{2029}' ||
    c == '\U{202F}' || c == '\U{205F}' || c == '\U{3000}'
  }

  /** The characters `slug` strips from both ends: `strip("_ ")`. */
  predicate IsSlugEdge(c: char) {
    c == '_' || c == ' '
  }

  function TrimStart(s: string, cut: char -> bool): string
    decreases |s|
  {
    if s != [] && cut(s[0]) then TrimStart(s[1..], cut) else s
  }

  function TrimEnd(s: string, cut: char -> bool): string
    decreases |s|
  {
    if s != [] && cut(s[|s| - 1]) then TrimEnd(s[..|s| - 1], cut) else s
  }

  /** Python's `s.strip(chars)`. */
  function Trim(s: string, cut: char -> bool): string {
    TrimEnd(TrimStart(s, cut), cut)
  }

  /** Stripping the front drops a prefix of cut characters and stops at one
      that is not cut. */
  lemma {:induction false} TrimStartCorrect(s: string, cut: char -> bool)
    ensures var r := TrimStart(s, cut);
      |r| <= |s| && r == s[|s| - |r|..] &&
      (forall i :: 0 <= i < |s| - |r| ==> cut(s[i])) &&
      (r != [] ==> !cut(r[0]))
    decreases |s|
  {
    if s != [] && cut(s[0]) {
      TrimStartCorrect(s[1..], cut);
    }
  }

  /** Stripping the back drops a suffix of cut characters and stops at one
      that is not cut. */
  lemma {:induction false} TrimEndCorrect(s: string, cut: char -> bool)
    ensures var r := TrimEnd(s, cut);
      |r| <= |s| && r == s[..|r|] &&
      (forall i :: |r| <= i < |s| ==> cut(s[i])) &&
      (r != [] ==> !cut(r[|r| - 1]))
    decreases |s|
  {
    if s != [] && cut(s[|s| - 1]) {
      TrimEndCorrect(s[..|s| - 1], cut);
    }
  }

  /** `strip` leaves the slice of `s` that remains once every leading and
      trailing cut character is dropped: what it drops is all cut, and what
      it keeps neither starts nor ends with a cut character. */
  lemma TrimCorrect(s: string, cut: char -> bool)
    ensures |TrimStart(s, cut)| <= |s|
    ensures var r := Trim(s, cut);
      var a := |s| - |TrimStart(s, cut)|;
      a + |r| <= |s| && r == s[a..a + |r|] &&
      (forall i :: 0 <= i < a ==> cut(s[i])) &&
      (forall i :: a + |r| <= i < |s| ==> cut(s[i])) &&
      (r != [] ==> !cut(r[0]) && !cut(r[|r| - 1]))
  {
    var t := TrimStart(s, cut);
    TrimStartCorrect(s, cut);
    TrimEndCorrect(t, cut);
    TrimSlices(s, t, TrimEnd(t, cut), cut);
  }

  /** A slice `r` taken from the front of a suffix `t` of `s` sits in `s` at
      the offset where `t` begins. */
  lemma TrimSlices(s: string, t: string, r: string, cut: char -> bool)
    requires |t| <= |s| && t == s[|s| - |t|..]
    requires |r| <= |t| && r == t[..|r|]
    requires forall i :: |r| <= i < |t| ==> cut(t[i])
    requires t != [] ==> !cut(t[0])
    ensures var a := |s| - |t|;
      a + |r| <= |s| && r == s[a..a + |r|] &&
      (forall i :: a + |r| <= i < |s| ==> cut(s[i])) &&
      (r != [] ==> !cut(r[0]))
  {
    var a := |s| - |t|;
    forall i | a + |r| <= i < |s| ensures cut(s[i]) {
      assert s[i] == t[i - a];
    }
    if r != [] {
      assert r[0] == t[0];
    }
  }

  /** A string made only of cut characters strips to nothing. */
  lemma TrimAllCut(s: string, cut: char -> bool)
    requires forall i :: 0 <= i < |s| ==> cut(s[i])
    ensures Trim(s, cut) == []
  {
    TrimStartCorrect(s, cut);
  }

  /** Stripping leaves a string whose ends are not cut characters unchanged. */
  lemma TrimKeepsTrimmed(s: string, cut: char -> bool)
    requires s != [] ==> !cut(s[0]) && !cut(s[|s| - 1])
    ensures Trim(s, cut) == s
  {
  }

  // ---------------------------------------------------------------------------
  // slug
  // ---------------------------------------------------------------------------

  /** The characters `slug` keeps as they are, the string
      `-_.() abcdefghijklmnopqrstuvwxyzABCDEFGHIJKLMNOPQRSTUVWXYZ0123456789`. */
  predicate IsSafe(c: char) {
    c == '-' || c == '_' || c == '.' || c == '(' || c == ')' || c == ' ' ||
    ('a' <= c <= 'z') || ('A' <= c <= 'Z') || ('0' <= c <= '9')
  }

  /** Every character that is not safe becomes `_`. */
  function Sanitize(s: string): (r: string)
    ensures |r| == |s|
  {
    seq(|s|, i requires 0 <= i < |s| => if IsSafe(s[i]) then s[i] else '_')
  }

  predicate AllSafe(s: string) {
    forall i :: 0 <= i < |s| ==> IsSafe(s[i])
  }

  predicate NoDoubleUnderscore(s: string) {
    forall i :: 0 <= i < |s| - 1 ==> !(s[i] == '_' && s[i + 1] == '_')
  }

  /** `re.sub(r"_+", "_", s)`: every run of underscores becomes one underscore. */
  function CollapseUnderscores(s: string): (r: string)
    ensures |r| <= |s| && (r == []) == (s == [])
    ensures s != [] ==> r[0] == s[0]
    ensures AllSafe(s) ==> AllSafe(r)
    ensures NoDoubleUnderscore(r)
    decreases |s|
  {
    if |s| <= 1 then s
    else if s[0] == '_' && s[1] == '_' then CollapseUnderscores(s[1..])
    else [s[0]] + CollapseUnderscores(s[1..])
  }

  /** `s` with every underscore removed. */
  function WithoutUnderscores(s: string): string {
    if s == [] then [] else (if s[0] == '_' then [] else [s[0]]) + WithoutUnderscores(s[1..])
  }

  /** Collapsing only removes underscores: every other character survives, in order. */
  lemma {:induction false} CollapseKeepsOtherCharacters(s: string)
    ensures WithoutUnderscores(CollapseUnderscores(s)) == WithoutUnderscores(s)
    decreases |s|
  {
    if |s| > 1 {
      CollapseKeepsOtherCharacters(s[1..]);
      if !(s[0] == '_' && s[1] == '_') {
        var t := [s[0]] + CollapseUnderscores(s[1..]);
        assert t[1..] == CollapseUnderscores(s[1..]);
      }
    }
  }

  /** A string without `__` is left unchanged by collapsing. */
  lemma {:induction false} CollapseKeepsCollapsed(s: string)
    requires NoDoubleUnderscore(s)
    ensures CollapseUnderscores(s) == s
    decreases |s|
  {
    if |s| > 1 {
      assert !(s[0] == '_' && s[1] == '_');
      assert NoDoubleUnderscore(s[1..]) by {
        forall i | 0 <= i < |s[1..]| - 1 ensures !(s[1..][i] == '_' && s[1..][i + 1] == '_') {
          assert s[1..][i] == s[i + 1] && s[1..][i + 1] == s[i + 2];
        }
      }
      CollapseKeepsCollapsed(s[1..]);
      assert [s[0]] + s[1..] == s;
    }
  }

  predicate IsUnderscore(c: char) {
    c == '_'
  }

  /** `re.sub(r"_+", "_", s)` as the regular-expression engine scans: each
      maximal run of underscores, found left to right, is replaced by a single
      `_`; every other character is copied. */
  function ReplaceRuns(s: string): string
    decreases |s|
  {
    if s == [] then []
    else if s[0] == '_' then
      TrimStartCorrect(s[1..], IsUnderscore);
      "_" + ReplaceRuns(TrimStart(s[1..], IsUnderscore))
    else [s[0]] + ReplaceRuns(s[1..])
  }

  /** Collapsing pairs of underscores one at a time gives exactly the
      run-by-run rewrite: each run of underscores leaves one `_` in its place. */
  lemma {:induction false} CollapseIsReplaceRuns(s: string)
    ensures CollapseUnderscores(s) == ReplaceRuns(s)
    decreases |s|
  {
    if |s| == 1 {
      assert ReplaceRuns(s) == [s[0]] + ReplaceRuns([]);
    } else if |s| > 1 {
      CollapseIsReplaceRuns(s[1..]);
      if s[0] == '_' && s[1] == '_' {
        assert s[1..][1..] == s[2..];
        assert TrimStart(s[1..], IsUnderscore) == TrimStart(s[2..], IsUnderscore);
      } else if s[0] == '_' {
        assert TrimStart(s[1..], IsUnderscore) == s[1..];
      }
    }
  }

  /** `slug(txt)`: keep the safe characters, turn every other one into `_`,
      collapse runs of `_`, then strip `_` and space from both ends. */
  function Slug(txt: string): string {
    Trim(CollapseUnderscores(Sanitize(txt)), IsSlugEdge)
  }

  /** What a slug looks like. */
  predicate IsSlug(s: string) {
    AllSafe(s) &&
    NoDoubleUnderscore(s) &&
    (s != [] ==> !IsSlugEdge(s[0]) && !IsSlugEdge(s[|s| - 1]))
  }

  /** Every output of `slug` uses only safe characters, has no `__`, and
      neither starts nor ends with `_` or a space. */
  lemma SlugIsSlug(txt: string)
    ensures IsSlug(Slug(txt))
  {
    var san := Sanitize(txt);
    assert AllSafe(san);
    var col := CollapseUnderscores(san);
    var r := Slug(txt);
    TrimCorrect(col, IsSlugEdge);
    var a := |col| - |TrimStart(col, IsSlugEdge)|;
    SliceKeepsShape(col, a, a + |r|);
  }

  lemma SliceKeepsShape(s: string, a: nat, b: nat)
    requires a <= b <= |s|
    ensures AllSafe(s) ==> AllSafe(s[a..b])
    ensures NoDoubleUnderscore(s) ==> NoDoubleUnderscore(s[a..b])
  {
    if NoDoubleUnderscore(s) {
      forall i | 0 <= i < b - a - 1 ensures !(s[a..b][i] == '_' && s[a..b][i + 1] == '_') {
        assert s[a..b][i] == s[a + i] && s[a..b][i + 1] == s[a + i + 1];
      }
    }
  }

  /** A slug is its own slug. */
  lemma SlugKeepsSlugs(s: string)
    requires IsSlug(s)
    ensures Slug(s) == s
  {
    assert Sanitize(s) == s;
    CollapseKeepsCollapsed(s);
    TrimKeepsTrimmed(s, IsSlugEdge);
  }

  /** `slug` is idempotent. */
  lemma SlugIdempotent(txt: string)
    ensures Slug(Slug(txt)) == Slug(txt)
  {
    SlugIsSlug(txt);
    SlugKeepsSlugs(Slug(txt));
  }

  // ---------------------------------------------------------------------------
  // extract_card_meta
  // ---------------------------------------------------------------------------

  /** `raw.replace("\n", " ")`. */
  function ReplaceNewlines(s: string): (r: string)
    ensures |r| == |s|
  {
    seq(|s|, i requires 0 <= i < |s| => if s[i] == '\n' then ' ' else s[i])
  }

  predicate IsE(c: char) { c == 'E' || c == 'e' }
  predicate IsP(c: char) { c == 'P' || c == 'p' }

  /** End of the (possibly empty) run of whitespace starting at `j`. */
  function SkipSpaces(s: string, j: nat): (k: nat)
    requires j <= |s|
    ensures j <= k <= |s|
    ensures forall m :: j <= m < k ==> IsSpace(s[m])
    ensures k < |s| ==> !IsSpace(s[k])
    decreases |s| - j
  {
    if j < |s| && IsSpace(s[j]) then SkipSpaces(s, j + 1) else j
  }

  /** End of the (possibly empty) run of digits starting at `j`. */
  function DigitsEnd(s: string, j: nat): (k: nat)
    requires j <= |s|
    ensures j <= k <= |s|
    ensures forall m :: j <= m < k ==> IsDigit(s[m])
    ensures k < |s| ==> !IsDigit(s[k])
    decreases |s| - j
  {
    if j < |s| && IsDigit(s[j]) then DigitsEnd(s, j + 1) else j
  }

  /** One match of `EP\.?\s*(\d+)` under `re.I`: it spans `start..end` and its
      group 1 is `digits..end`. */
  datatype EpMatch = EpMatch(start: nat, digits: nat, end: nat)

  /** The match that `re` finds at index `i`, if any. The greedy `\.?`, `\s*`
      and `\d+` never need to give characters back: a shorter `\s*` leaves a
      space where a digit is needed and an empty `\.?` leaves the dot there. */
  function MatchAt(s: string, i: nat): (m: Option<EpMatch>)
    ensures m.Some? ==> m.value.start == i && i + 2 <= m.value.digits < m.value.end <= |s|
    ensures m.Some? ==> AllDigits(s[m.value.digits..m.value.end])
    ensures m.Some? ==> m.value.end == |s| || !IsDigit(s[m.value.end])
  {
    if i + 2 <= |s| && IsE(s[i]) && IsP(s[i + 1]) then
      var j := if i + 2 < |s| && s[i + 2] == '.' then i + 3 else i + 2;
      var k := SkipSpaces(s, j);
      if k < |s| && IsDigit(s[k]) then
        var e := DigitsEnd(s, k);
        assert AllDigits(s[k..e]) by {
          forall m | 0 <= m < e - k ensures IsDigit(s[k..e][m]) { assert s[k..e][m] == s[k + m]; }
        }
        Some(EpMatch(i, k, e))
      else None
    else None
  }

  /** `EP\.?\s*\d` matches at `i` with its first digit at `k`: `E` and `P` in
      either case, then what lies between them and the digit is an optional
      `.` followed by whitespace only. */
  predicate PatternAt(s: string, i: nat, k: nat) {
    i + 2 <= k < |s| && IsE(s[i]) && IsP(s[i + 1]) && IsDigit(s[k]) &&
    forall m :: i + 2 <= m < k ==> (m == i + 2 && s[m] == '.') || IsSpace(s[m])
  }

  /** A match is found at `i` exactly when the pattern occurs there, and its
      digit group starts at the first digit after `EP`, the dot and the spaces. */
  lemma MatchAtCorrect(s: string, i: nat)
    ensures MatchAt(s, i).Some? <==> exists k: nat :: PatternAt(s, i, k)
    ensures MatchAt(s, i).Some? ==> PatternAt(s, i, MatchAt(s, i).value.digits)
  {
    if MatchAt(s, i).Some? {
      assert PatternAt(s, i, MatchAt(s, i).value.digits);
    }
    if exists k: nat :: PatternAt(s, i, k) {
      var k: nat :| PatternAt(s, i, k);
      var j := if i + 2 < |s| && s[i + 2] == '.' then i + 3 else i + 2;
      assert s[k] != '.';
      assert j <= k;
      assert forall m :: j <= m < k ==> IsSpace(s[m]);
      assert !IsSpace(s[k]);
      assert SkipSpaces(s, j) == k;
    }
  }

  /** `re.search` from index `from`: the leftmost match. */
  function FirstMatch(s: string, from: nat): (m: Option<EpMatch>)
    ensures m.None? ==> forall i :: from <= i < |s| ==> MatchAt(s, i).None?
    ensures m.Some? ==> from <= m.value.start < |s| && MatchAt(s, m.value.start) == m
    ensures m.Some? ==> forall i :: from <= i < m.value.start ==> MatchAt(s, i).None?
    decreases |s| - from
  {
    if from >= |s| then None
    else if MatchAt(s, from).Some? then MatchAt(s, from)
    else FirstMatch(s, from + 1)
  }

  /** `re.sub(pattern, "", s[from..])`: every match, scanning left to right, is deleted. */
  function RemoveMatches(s: string, from: nat): string
    decreases |s| - from
  {
    if from >= |s| then []
    else match MatchAt(s, from)
      case Some(m) => RemoveMatches(s, m.end)
      case None => [s[from]] + RemoveMatches(s, from + 1)
  }

  /** Deleting matches only removes characters: whatever is left is from `s`. */
  lemma {:induction false} RemoveMatchesKeepsCharacters(s: string, from: nat)
    ensures forall c :: c in RemoveMatches(s, from) ==> c in s
    decreases |s| - from
  {
    if from < |s| {
      match MatchAt(s, from)
      case Some(m) => RemoveMatchesKeepsCharacters(s, m.end);
      case None => RemoveMatchesKeepsCharacters(s, from + 1);
    }
  }

  /** `re.sub` keeps the text up to the leftmost match, drops the match, and
      goes on after it; with no match left it keeps the rest unchanged. */
  lemma {:induction false} RemoveMatchesByFirstMatch(s: string, from: nat)
    requires from <= |s|
    ensures FirstMatch(s, from).None? ==> RemoveMatches(s, from) == s[from..]
    ensures FirstMatch(s, from).Some? ==>
      var f := FirstMatch(s, from).value;
      from <= f.start <= f.end <= |s| &&
      RemoveMatches(s, from) == s[from..f.start] + RemoveMatches(s, f.end)
    decreases |s| - from
  {
    if from < |s| && MatchAt(s, from).None? {
      RemoveMatchesByFirstMatch(s, from + 1);
      var f := FirstMatch(s, from + 1);
      KeepFirstCharacter(s, from, f, RemoveMatches(s, from + 1), if f.Some? then RemoveMatches(s, f.value.end) else []);
    }
  }

  /** The step of `RemoveMatchesByFirstMatch` where no match starts at `from`:
      the character there goes in front of what the rest gives. */
  lemma KeepFirstCharacter(s: string, from: nat, f: Option<EpMatch>, rest: string, tail: string)
    requires from < |s|
    requires f.None? ==> rest == s[from + 1..]
    requires f.Some? ==> from + 1 <= f.value.start <= |s| && rest == s[from + 1..f.value.start] + tail
    ensures f.None? ==> [s[from]] + rest == s[from..]
    ensures f.Some? ==> [s[from]] + rest == s[from..f.value.start] + tail
  {
    if f.Some? {
      assert s[from..f.value.start] == [s[from]] + s[from + 1..f.value.start];
    } else {
      assert s[from..] == [s[from]] + s[from + 1..];
    }
  }

  /** What `extract_card_meta` returns: the episode number (-1 when unknown) and a title. */
  datatype CardMeta = CardMeta(num: int, title: string)

  /** `int(m.group(1)) if m else -1` for the leftmost match `m` in `raw`. */
  function CardNumber(raw: string): int {
    match FirstMatch(raw, 0)
    case None => -1
    case Some(m) => DecimalValue(raw[m.digits..m.end])
  }

  /** The leftmost match of the pattern in `raw` starts at `i` and its digits read as `n`. */
  predicate LeftmostNumber(raw: string, i: nat, n: int) {
    MatchAt(raw, i).Some? &&
    (forall j :: 0 <= j < i ==> MatchAt(raw, j).None?) &&
    n == DecimalValue(raw[MatchAt(raw, i).value.digits..MatchAt(raw, i).value.end])
  }

  /** The number is -1 exactly when the pattern matches nowhere, and otherwise
      it is the value of the leftmost match's digits. */
  lemma CardNumberCorrect(raw: string)
    ensures CardNumber(raw) >= -1
    ensures CardNumber(raw) == -1 <==> forall i :: 0 <= i < |raw| ==> MatchAt(raw, i).None?
    ensures CardNumber(raw) != -1 ==> exists i :: 0 <= i < |raw| && LeftmostNumber(raw, i, CardNumber(raw))
  {
    var m := FirstMatch(raw, 0);
    if m.Some? {
      assert LeftmostNumber(raw, m.value.start, CardNumber(raw));
    }
  }

  /** `re.sub(pattern, "", raw, flags=re.I).strip() or "Episode"`. */
  function CardTitle(raw: string): string {
    var stripped := Trim(RemoveMatches(raw, 0), IsSpace);
    if stripped != [] then stripped else "Episode"
  }

  /** The title is never empty and never starts or ends with whitespace; it is
      `"Episode"` when only whitespace is left once the matches are removed. */
  lemma CardTitleCorrect(raw: string)
    ensures var t := CardTitle(raw);
      t != [] && !IsSpace(t[0]) && !IsSpace(t[|t| - 1])
    ensures (forall c :: c in RemoveMatches(raw, 0) ==> IsSpace(c)) ==> CardTitle(raw) == "Episode"
    ensures Trim(RemoveMatches(raw, 0), IsSpace) != [] ==> CardTitle(raw) == Trim(RemoveMatches(raw, 0), IsSpace)
  {
    var rest := RemoveMatches(raw, 0);
    TrimCorrect(rest, IsSpace);
    if forall c :: c in rest ==> IsSpace(c) {
      TrimAllCut(rest, IsSpace);
    }
    assert "Episode"[0] == 'E' && "Episode"[6] == 'e';
  }

  /** `extract_card_meta(card)` on the card's text. The last two branches are
      the source's fallbacks for an empty title; the title is never empty at
      that point (it already defaults to "Episode"), so they never apply. */
  function ExtractCardMeta(text: string): CardMeta {
    var raw := ReplaceNewlines(text);
    var num := CardNumber(raw);
    var title := CardTitle(raw);
    if title == [] && num != -1 then CardMeta(num, "Episode " + IntToString(num))
    else if title == [] && num == -1 then CardMeta(num, "Unknown Episode")
    else CardMeta(num, title)
  }

  /** The number is -1 exactly when the card text (newlines read as spaces)
      has no match, and otherwise the value of the leftmost match's digits;
      the title is non-empty and stripped, and `"Episode"` when nothing but
      whitespace is left once the matches are removed. */
  lemma ExtractCardMetaCorrect(text: string)
    ensures var r := ExtractCardMeta(text);
      r.num >= -1 &&
      (r.num == -1 <==> forall i :: 0 <= i < |text| ==> MatchAt(ReplaceNewlines(text), i).None?) &&
      (r.num != -1 ==> exists i :: 0 <= i < |text| && LeftmostNumber(ReplaceNewlines(text), i, r.num)) &&
      r.title != [] && !IsSpace(r.title[0]) && !IsSpace(r.title[|r.title| - 1])
    ensures (forall c :: c in RemoveMatches(ReplaceNewlines(text), 0) ==> IsSpace(c)) ==>
      ExtractCardMeta(text).title == "Episode"
    ensures var rest := Trim(RemoveMatches(ReplaceNewlines(text), 0), IsSpace);
      rest != [] ==> ExtractCardMeta(text).title == rest
  {
    var raw := ReplaceNewlines(text);
    CardNumberCorrect(raw);
    CardTitleCorrect(raw);
  }

  /** The harvester's sanity check on extracted metadata:
      `num != -1 or "Unknown" not in title`. */
  predicate Plausible(meta: CardMeta) {
    meta.num != -1 || !Contains(meta.title, "Unknown")
  }

  // ---------------------------------------------------------------------------
  // Episode codes and file names
  // ---------------------------------------------------------------------------

  /** Python's `s[:n]`. */
  function Prefix(s: string, n: nat): (r: string)
    ensures |r| == (if |s| <= n then |s| else n) && StartsWith(s, r)
  {
    if |s| <= n then s else s[..n]
  }

  /** The resume/identity code of an episode: `S{season:02d}E{num:03d}` when the
      number is known, `UNK_` + `slug(title[:30])` otherwise. */
  function EpisodeCode(num: int, title: string, season: int): string {
    if num != -1 then "S" + FormatInt(season, 2) + "E" + FormatInt(num, 3)
    else "UNK_" + Slug(Prefix(title, 30))
  }

  /** The output file stem: `slug(f"{series}.{code}")`, where an unknown number
      spells its code `S{season:02d}EUNK_...` inside the file name. */
  function BaseFilename(series: string, num: int, title: string, season: int): string {
    if num != -1 then Slug(series + "." + EpisodeCode(num, title, season))
    else Slug(series + ".S" + FormatInt(season, 2) + "EUNK_" + Slug(Prefix(title, 30)))
  }

  /** A known code is the 7-character `S##E###` from which the season and the
      episode number read back (for a season below 100 and a number below 1000). */
  lemma KnownCodeRoundTrip(num: int, title: string, season: int)
    requires 0 <= season < 100 && 0 <= num < 1000
    ensures var c := EpisodeCode(num, title, season);
      |c| == 7 && c[0] == 'S' && c[3] == 'E' && AllDigits(c[1..3]) && AllDigits(c[4..]) &&
      DecimalValue(c[1..3]) == season && DecimalValue(c[4..]) == num
  {
    var c := EpisodeCode(num, title, season);
    var p, q := FormatInt(season, 2), FormatInt(num, 3);
    assert Pow10(2) == 100 && Pow10(3) == 1000;
    FormatFixedWidth(season, 2);
    FormatFixedWidth(num, 3);
    assert c == "S" + p + "E" + q;
    assert c[1..3] == p;
    assert c[4..] == q;
  }

  /** Two different episode numbers (each read from `\d+`, so never negative)
      of one season never share a code, however many digits they have. */
  lemma KnownCodesDistinct(num1: int, num2: int, title1: string, title2: string, season: int)
    requires 0 <= num1 && 0 <= num2 && num1 != num2
    ensures EpisodeCode(num1, title1, season) != EpisodeCode(num2, title2, season)
  {
    var p := "S" + FormatInt(season, 2) + "E";
    var q1, q2 := FormatInt(num1, 3), FormatInt(num2, 3);
    FormatIntRoundTrip(num1, 3);
    FormatIntRoundTrip(num2, 3);
    assert q1[0..] == q1 && q2[0..] == q2;
    assert EpisodeCode(num1, title1, season) == p + q1;
    assert EpisodeCode(num2, title2, season) == p + q2;
    assert (p + q1)[|p|..] == q1 && (p + q2)[|p|..] == q2;
  }

  /** An unknown number's code is `UNK_` followed by a slug. */
  lemma UnknownCodeIsSlugged(title: string, season: int)
    ensures var c := EpisodeCode(-1, title, season);
      StartsWith(c, "UNK_") && IsSlug(c[4..])
  {
    SlugIsSlug(Prefix(title, 30));
    assert EpisodeCode(-1, title, season)[4..] == Slug(Prefix(title, 30));
  }

  /** Two unknown-numbered episodes whose first 30 title characters agree
      once every unsafe character is replaced by `_` get the same code. */
  lemma UnknownCodesAgree(title1: string, title2: string, season: int)
    requires Sanitize(Prefix(title1, 30)) == Sanitize(Prefix(title2, 30))
    ensures EpisodeCode(-1, title1, season) == EpisodeCode(-1, title2, season)
  {
  }

  /** Two unknown-numbered episodes whose titles differ only in characters that
      `slug` replaces get the same code: "Final!" and "Final?" collide. */
  lemma UnknownCodesCollide(season: int)
    ensures EpisodeCode(-1, "Final!", season) == EpisodeCode(-1, "Final?", season)
  {
    var a, b := "Final!", "Final?";
    assert Prefix(a, 30) == a && Prefix(b, 30) == b;
    assert Sanitize(a) == Sanitize(b) by {
      forall i | 0 <= i < 6 ensures Sanitize(a)[i] == Sanitize(b)[i] {
        if i == 5 {
          assert !IsSafe(a[5]) && !IsSafe(b[5]);
        }
      }
    }
  }

  // ---------------------------------------------------------------------------
  // Absolute hrefs
  // ---------------------------------------------------------------------------

  /** Python's `s.split(sep)[0]`: the text before the first occurrence of `sep`. */
  function BeforeFirst(s: string, sep: string): string
    requires sep != []
    decreases |s|
  {
    if OccursAt(s, sep, 0) || s == [] then [] else [s[0]] + BeforeFirst(s[1..], sep)
  }

  /** An occurrence inside a prefix is an occurrence in the whole string. */
  lemma OccursInPrefix(p: string, s: string, sep: string, i: nat)
    requires StartsWith(s, p)
    ensures OccursAt(p, sep, i) ==> OccursAt(s, sep, i)
  {
    if OccursAt(p, sep, i) {
      assert s[i..i + |sep|] == p[i..i + |sep|];
    }
  }

  /** An occurrence after the first character is one in the rest. */
  lemma OccursInTail(c: char, rest: string, sep: string, i: nat)
    requires i > 0
    ensures OccursAt([c] + rest, sep, i) ==> OccursAt(rest, sep, i - 1)
  {
    if OccursAt([c] + rest, sep, i) {
      assert ([c] + rest)[i..i + |sep|] == rest[i - 1..i - 1 + |sep|];
    }
  }

  /** An occurrence in the rest of a string is one in the whole string, one
      place further on, and the other way round. */
  lemma OccursInWhole(s: string, sep: string, i: nat)
    requires s != []
    ensures OccursAt(s[1..], sep, i) <==> OccursAt(s, sep, i + 1)
  {
    if OccursAt(s[1..], sep, i) {
      forall k | 0 <= k < |sep| ensures s[i + 1 + k] == sep[k] {
        assert s[i + 1 + k] == s[1..][i + k];
      }
    }
    if OccursAt(s, sep, i + 1) {
      assert s[1..][i..i + |sep|] == s[i + 1..i + 1 + |sep|];
    }
  }

  /** One step of the scan: a character that does not start the separator,
      followed by a part that has the three properties for the rest of `s`,
      gives a part that has them for `s`. */
  lemma BeforeFirstStep(s: string, sep: string, rest: string)
    requires s != [] && !OccursAt(s, sep, 0)
    requires StartsWith(s[1..], rest) && (forall i: nat :: !OccursAt(rest, sep, i))
    requires forall i: nat :: i < |rest| ==> !OccursAt(s[1..], sep, i)
    requires rest == s[1..] || OccursAt(s[1..], sep, |rest|)
    ensures var r := [s[0]] + rest;
      StartsWith(s, r) && (forall i: nat :: !OccursAt(r, sep, i)) &&
      (forall i: nat :: i < |r| ==> !OccursAt(s, sep, i)) &&
      (r == s || OccursAt(s, sep, |r|))
  {
    var r := [s[0]] + rest;
    assert s == [s[0]] + s[1..];
    assert StartsWith(s, r);
    forall i: nat ensures !OccursAt(r, sep, i) {
      if i == 0 {
        OccursInPrefix(r, s, sep, 0);
      } else {
        OccursInTail(s[0], rest, sep, i);
      }
    }
    forall i: nat | 0 < i < |r| ensures !OccursAt(s, sep, i) {
      OccursInWhole(s, sep, i - 1);
    }
    OccursInWhole(s, sep, |rest|);
  }

  /** The part before the separator is a prefix of `s` that holds no
      separator, no separator starts in `s` before its end, and it is either
      all of `s` or followed by the separator: the first occurrence. */
  lemma {:induction false} BeforeFirstCorrect(s: string, sep: string)
    requires sep != []
    ensures var r := BeforeFirst(s, sep);
      StartsWith(s, r) && (forall i: nat :: !OccursAt(r, sep, i)) &&
      (forall i: nat :: i < |r| ==> !OccursAt(s, sep, i)) &&
      (r == s || OccursAt(s, sep, |r|))
    decreases |s|
  {
    if !(OccursAt(s, sep, 0) || s == []) {
      BeforeFirstCorrect(s[1..], sep);
      BeforeFirstStep(s, sep, BeforeFirst(s[1..], sep));
    }
  }

  /** The absolute form of a card's href: kept when it starts with "http",
      otherwise prefixed with the current page URL cut before "/detail". */
  function Absolutise(href: string, currentUrl: string): string {
    if StartsWith(href, "http") then href else BeforeFirst(currentUrl, "/detail") + href
  }

  /** An `http` href is kept; any other one is kept as the suffix after the
      part of the page URL before its first `/detail`: a prefix of the URL in
      which no `/detail` starts, which is the whole URL or is followed by
      `/detail`. */
  lemma AbsolutiseCorrect(href: string, currentUrl: string)
    ensures var r := Absolutise(href, currentUrl);
      (StartsWith(href, "http") ==> r == href) &&
      (!StartsWith(href, "http") ==>
        var root := r[..|r| - |href|];
        |href| <= |r| && r[|r| - |href|..] == href &&
        StartsWith(currentUrl, root) && !Contains(root, "/detail") &&
        (forall i: nat :: i < |root| ==> !OccursAt(currentUrl, "/detail", i)) &&
        (root == currentUrl || OccursAt(currentUrl, "/detail", |root|)))
  {
    if !StartsWith(href, "http") {
      var root := BeforeFirst(currentUrl, "/detail");
      BeforeFirstCorrect(currentUrl, "/detail");
      var r := root + href;
      assert r[..|root|] == root && r[|root|..] == href;
    }
  }

  // ---------------------------------------------------------------------------
  // Range labels
  // ---------------------------------------------------------------------------

  /** What the episode-range chooser offered: no chooser within the timeout, a
      chooser that failed in some other way, or the texts of its options. */
  datatype RangeChooser = NoChooser | ChooserBroken | Chooser(optionTexts: seq<string>)

  /** `x` is the stripped text of the option `text` and starts with "Episodios". */
  predicate IsRangeLabel(text: string, x: string) {
    x == Trim(text, IsSpace) && StartsWith(x, "Episodios")
  }

  /** What one option contributes: its stripped text when that is non-empty
      and starts with "Episodios". */
  function OptionLabel(text: string): (r: seq<string>)
    ensures |r| <= 1
    ensures forall x :: x in r <==> IsRangeLabel(text, x)
  {
    var name := Trim(text, IsSpace);
    if name != [] && StartsWith(name, "Episodios") then [name] else []
  }

  /** The stripped, non-empty option texts that start with "Episodios", in order. */
  function FilterLabels(texts: seq<string>): (r: seq<string>)
    ensures |r| <= |texts|
  {
    if texts == [] then [] else OptionLabel(texts[0]) + FilterLabels(texts[1..])
  }

  /** Filtering works option by option, in order: the labels of two lists of
      options one after the other are the labels of the first list followed by
      those of the second. */
  lemma {:induction false} FilterLabelsAppend(a: seq<string>, b: seq<string>)
    ensures FilterLabels(a + b) == FilterLabels(a) + FilterLabels(b)
  {
    if a == [] {
      assert a + b == b;
    } else {
      var ab := a + b;
      assert ab[0] == a[0] && ab[1..] == a[1..] + b;
      FilterLabelsAppend(a[1..], b);
      calc {
        FilterLabels(ab);
        OptionLabel(a[0]) + FilterLabels(a[1..] + b);
        OptionLabel(a[0]) + (FilterLabels(a[1..]) + FilterLabels(b));
        (OptionLabel(a[0]) + FilterLabels(a[1..])) + FilterLabels(b);
      }
    }
  }

  /** One option gives the labels it contributes alone. */
  lemma FilterLabelsSingle(text: string)
    ensures FilterLabels([text]) == OptionLabel(text)
  {
    assert [text][1..] == [];
  }

  /** A label is kept exactly when it is the stripped text of some option and
      starts with "Episodios"; the non-empty test adds nothing to that. */
  lemma {:induction false} FilterLabelsMembers(texts: seq<string>, x: string)
    ensures x in FilterLabels(texts) <==> exists i :: 0 <= i < |texts| && IsRangeLabel(texts[i], x)
  {
    if texts != [] {
      FilterLabelsMembers(texts[1..], x);
      assert FilterLabels(texts) == OptionLabel(texts[0]) + FilterLabels(texts[1..]);
      if x in FilterLabels(texts[1..]) {
        var i :| 0 <= i < |texts[1..]| && IsRangeLabel(texts[1..][i], x);
        assert IsRangeLabel(texts[i + 1], x);
      }
      if exists i :: 0 <= i < |texts| && IsRangeLabel(texts[i], x) {
        var i :| 0 <= i < |texts| && IsRangeLabel(texts[i], x);
        if i > 0 {
          assert IsRangeLabel(texts[1..][i - 1], x);
        }
      }
    }
  }

  /** The ranges to harvest: the single placeholder "current" when there is no
      chooser, nothing at all (`None`: the whole collection gives up) when the
      chooser failed otherwise, and the filtered option labels else. */
  function RangeLabels(chooser: RangeChooser): (r: Option<seq<string>>)
    ensures chooser.ChooserBroken? <==> r.None?
    ensures chooser.NoChooser? ==> r == Some(["current"])
    ensures r.Some? && "current" in r.value ==> chooser.NoChooser?
    ensures chooser.Chooser? ==> r == Some(FilterLabels(chooser.optionTexts))
  {
    match chooser
    case NoChooser => Some(["current"])
    case ChooserBroken => None
    case Chooser(texts) =>
      var labels := FilterLabels(texts);
      assert "current" !in labels by {
        FilterLabelsMembers(texts, "current");
      }
      Some(labels)
  }
}
