/** The resume ledger `previously_done`: the set of upper-cased episode codes
    already handled, read from the first column of `titles.csv` and from the
    `S##E###` code in the name of every `.mp4` file in the output folder. */
module Ledger {
  import opened Base
  import opened Text

  predicate IsS(c: char) { c == 'S' || c == 's' }

  /** `S\d{2}E\d{3}` (case-insensitive) matches at index `i` of `s`. */
  predicate CodeAt(s: string, i: nat) {
    i + 7 <= |s| &&
    IsS(s[i]) && IsDigit(s[i + 1]) && IsDigit(s[i + 2]) &&
    IsE(s[i + 3]) && IsDigit(s[i + 4]) && IsDigit(s[i + 5]) && IsDigit(s[i + 6])
  }

  /** The leftmost index at or after `from` where a code matches. */
  function FindCode(s: string, from: nat): (r: Option<nat>)
    ensures r.Some? ==>
      from <= r.value && CodeAt(s, r.value) && forall j :: from <= j < r.value ==> !CodeAt(s, j)
    ensures r.None? ==> forall j :: from <= j < |s| ==> !CodeAt(s, j)
    decreases |s| - from
  {
    if from + 7 > |s| then None
    else if CodeAt(s, from) then Some(from)
    else FindCode(s, from + 1)
  }

  /** `re.search(r"(S\d{2}E\d{3})", stem, re.I)`, group 1. */
  function StemCode(stem: string): Option<string> {
    match FindCode(stem, 0)
    case None => None
    case Some(i) => Some(stem[i..i + 7])
  }

  /** `row[0].upper()` for every non-empty row of `titles.csv`. */
  function CsvCodes(rows: seq<seq<string>>): set<string> {
    if rows == [] then {}
    else (if rows[0] != [] then {Upper(rows[0][0])} else {}) + CsvCodes(rows[1..])
  }

  /** The upper-cased code of every `.mp4` stem that has one. */
  function StemCodes(stems: seq<string>): set<string> {
    if stems == [] then {}
    else
      var m := StemCode(stems[0]);
      (if m.Some? then {Upper(m.value)} else {}) + StemCodes(stems[1..])
  }

  /** The ledger: `csv` is `None` when `titles.csv` does not exist. */
  function Done(csv: Option<seq<seq<string>>>, stems: seq<string>): set<string> {
    (if csv.Some? then CsvCodes(csv.value) else {}) + StemCodes(stems)
  }

  /** `previously_done(out_dir, titles_csv)`: `csv` holds the parsed rows of
      `titles.csv` when it exists, `stems` the stems of the `.mp4` files in `out_dir`. */
  method PreviouslyDone(csv: Option<seq<seq<string>>>, stems: seq<string>) returns (done: set<string>)
    ensures done == Done(csv, stems)
  {
    done := {};
    if csv.Some? {
      var rows := csv.value;
      var k := 0;
      while k < |rows|
        invariant 0 <= k <= |rows|
        invariant done + CsvCodes(rows[k..]) == CsvCodes(rows)
      {
        assert rows[k..][1..] == rows[k + 1..];
        if rows[k] != [] {
          done := done + {Upper(rows[k][0])};
        }
        k := k + 1;
      }
    }
    ghost var fromCsv := done;
    var k := 0;
    while k < |stems|
      invariant 0 <= k <= |stems|
      invariant done + StemCodes(stems[k..]) == fromCsv + StemCodes(stems)
    {
      assert stems[k..][1..] == stems[k + 1..];
      var m := StemCode(stems[k]);
      if m.Some? {
        done := done + {Upper(m.value)};
      }
      k := k + 1;
    }
  }

  /** A code is in the ledger from `titles.csv` exactly when some non-empty
      row's first cell upper-cases to it. */
  lemma {:induction false} CsvCodesMembers(rows: seq<seq<string>>, x: string)
    ensures x in CsvCodes(rows) <==> exists k :: 0 <= k < |rows| && rows[k] != [] && Upper(rows[k][0]) == x
  {
    if rows != [] {
      CsvCodesMembers(rows[1..], x);
      if x in CsvCodes(rows[1..]) {
        var k :| 0 <= k < |rows[1..]| && rows[1..][k] != [] && Upper(rows[1..][k][0]) == x;
        assert rows[k + 1] == rows[1..][k];
      }
      if exists k :: 0 <= k < |rows| && rows[k] != [] && Upper(rows[k][0]) == x {
        var k :| 0 <= k < |rows| && rows[k] != [] && Upper(rows[k][0]) == x;
        if k > 0 {
          assert rows[1..][k - 1] == rows[k];
        }
      }
    }
  }

  /** A code is in the ledger from the file names exactly when some stem
      holds a code that upper-cases to it. */
  lemma {:induction false} StemCodesMembers(stems: seq<string>, x: string)
    ensures x in StemCodes(stems) <==>
      exists k :: 0 <= k < |stems| && StemCode(stems[k]).Some? && Upper(StemCode(stems[k]).value) == x
  {
    if stems != [] {
      StemCodesMembers(stems[1..], x);
      if x in StemCodes(stems[1..]) {
        var k :| 0 <= k < |stems[1..]| && StemCode(stems[1..][k]).Some? && Upper(StemCode(stems[1..][k]).value) == x;
        assert stems[k + 1] == stems[1..][k];
      }
      if exists k :: 0 <= k < |stems| && StemCode(stems[k]).Some? && Upper(StemCode(stems[k]).value) == x {
        var k :| 0 <= k < |stems| && StemCode(stems[k]).Some? && Upper(StemCode(stems[k]).value) == x;
        if k > 0 {
          assert stems[1..][k - 1] == stems[k];
        }
      }
    }
  }

  /** Every ledger entry is already upper case, so `code.upper() in done`
      compares like with like. */
  lemma LedgerIsUpperCase(csv: Option<seq<seq<string>>>, stems: seq<string>, x: string)
    requires x in Done(csv, stems)
    ensures Upper(x) == x
  {
    if csv.Some? && x in CsvCodes(csv.value) {
      CsvCodesMembers(csv.value, x);
      var k :| 0 <= k < |csv.value| && csv.value[k] != [] && Upper(csv.value[k][0]) == x;
      UpperIdempotent(csv.value[k][0]);
    } else {
      StemCodesMembers(stems, x);
      var k :| 0 <= k < |stems| && StemCode(stems[k]).Some? && Upper(StemCode(stems[k]).value) == x;
      UpperIdempotent(StemCode(stems[k]).value);
    }
  }

  /** The shape `S##E###` of a known episode's code. */
  predicate IsKnownCode(c: string) {
    |c| == 7 && c[0] == 'S' && c[3] == 'E' &&
    IsDigit(c[1]) && IsDigit(c[2]) && IsDigit(c[4]) && IsDigit(c[5]) && IsDigit(c[6])
  }

  lemma KnownCodeShape(num: int, title: string, season: int)
    requires 0 <= season < 100 && 0 <= num < 1000
    ensures IsKnownCode(EpisodeCode(num, title, season))
  {
    var c := EpisodeCode(num, title, season);
    KnownCodeRoundTrip(num, title, season);
    assert c[1] == c[1..3][0] && c[2] == c[1..3][1];
    assert c[4] == c[4..][0] && c[5] == c[4..][1] && c[6] == c[4..][2];
  }

  /** The shape of the text the file name carries after the dot: `S`, two
      digits, `E`, then three or more digits. */
  predicate IsCodeText(c: string) {
    |c| >= 7 && c[0] == 'S' && c[3] == 'E' &&
    forall i :: 0 < i < |c| && i != 3 ==> IsDigit(c[i])
  }

  /** A code of that shape is its own upper case. */
  lemma KnownCodeIsUpper(c: string)
    requires IsKnownCode(c)
    ensures Upper(c) == c
  {
    assert forall i :: 0 <= i < 7 ==> UpperChar(c[i]) == c[i];
  }

  /** Joining a slug and a code text with `.` gives a slug. */
  lemma JoinedStemIsSlug(series: string, code: string)
    requires IsSlug(series) && IsCodeText(code)
    ensures IsSlug(series + "." + code)
  {
    var stem := series + "." + code;
    forall i | 0 <= i < |stem| ensures IsSafe(stem[i]) {
      if i > |series| {
        assert stem[i] == code[i - |series| - 1];
      }
    }
    forall i | 0 <= i < |stem| - 1 ensures !(stem[i] == '_' && stem[i + 1] == '_') {
      if i + 1 > |series| {
        assert stem[i + 1] == code[i - |series|];
      }
    }
  }

  /** In `series.code`, the leftmost code is the one after the dot: its
      first seven characters. */
  lemma JoinedStemCode(series: string, code: string)
    requires (forall i: nat :: !CodeAt(series, i)) && IsCodeText(code)
    ensures StemCode(series + "." + code) == Some(code[..7])
  {
    var stem := series + "." + code;
    var p := |series| + 1;
    forall j: nat | j < p ensures !CodeAt(stem, j) {
      if j + 7 <= |series| {
        assert stem[j..j + 7] == series[j..j + 7];
        assert !CodeAt(series, j);
      } else {
        assert stem[|series|] == '.';
      }
    }
    assert stem[p..p + 7] == code[..7];
    assert CodeAt(stem, p);
  }

  /** The file written for a known episode number is recognised from its name
      alone: the leftmost code in its stem is the episode's code, which is its
      own upper case, when the series name is a slug without a code of its own
      and the season and number fit their two and three digits. */
  lemma DownloadedFileRecognised(series: string, num: int, title: string, season: int)
    requires IsSlug(series) && forall i: nat :: !CodeAt(series, i)
    requires 0 <= season < 100 && 0 <= num < 1000
    ensures StemCode(BaseFilename(series, num, title, season)) == Some(EpisodeCode(num, title, season))
    ensures Upper(EpisodeCode(num, title, season)) == EpisodeCode(num, title, season)
  {
    var code := EpisodeCode(num, title, season);
    KnownCodeShape(num, title, season);
    KnownCodeIsUpper(code);
    JoinedStemIsSlug(series, code);
    SlugKeepsSlugs(series + "." + code);
    JoinedStemCode(series, code);
    assert code[..7] == code;
  }

  /** A number from 100 to 999 is written with three digits. */
  lemma ThreeDigits(n: nat)
    requires 100 <= n < 1000
    ensures |DecimalDigits(n)| == 3
  {
    assert DecimalDigits(n) == DecimalDigits(n / 10) + [DigitChar(n % 10)];
    assert DecimalDigits(n / 10) == DecimalDigits(n / 100) + [DigitChar(n / 10 % 10)];
  }

  /** A four-digit number is written as its first three digits, themselves
      written as a three-digit number, followed by its last digit. */
  lemma FourDigitsExtendThree(num: nat)
    requires 1000 <= num < 10000
    ensures FormatInt(num, 3) == FormatInt(num / 10, 3) + [DigitChar(num % 10)]
  {
    ThreeDigits(num / 10);
    assert DecimalDigits(num) == DecimalDigits(num / 10) + [DigitChar(num % 10)];
    assert FormatInt(num, 3) == Padded(num, 3) == DecimalDigits(num);
    assert FormatInt(num / 10, 3) == Padded(num / 10, 3) == DecimalDigits(num / 10);
  }

  /** The code of a four-digit episode is the code of the episode numbered by
      its first three digits, with the last digit appended. */
  lemma LongCodeExtendsShort(num: int, title: string, season: int)
    requires 0 <= season < 100 && 1000 <= num < 10000
    ensures var code := EpisodeCode(num, title, season);
      code == EpisodeCode(num / 10, title, season) + [DigitChar(num % 10)] && IsCodeText(code)
  {
    var short := EpisodeCode(num / 10, title, season);
    var code := EpisodeCode(num, title, season);
    FourDigitsExtendThree(num);
    assert code == short + [DigitChar(num % 10)];
    KnownCodeShape(num / 10, title, season);
    forall i | 0 < i < |code| && i != 3 ensures IsDigit(code[i]) {
      if i < 7 {
        assert code[i] == short[i];
      }
    }
  }

  /** Episode numbers of four digits are written in full in the file name,
      but the ledger reads back only the seven characters `S##E###`: the file
      of episode 1000 marks the code of episode 100 as done, and never its own. */
  lemma LongNumberReadsAsShorter(series: string, num: int, title: string, season: int)
    requires IsSlug(series) && forall i: nat :: !CodeAt(series, i)
    requires 0 <= season < 100 && 1000 <= num < 10000
    ensures StemCode(BaseFilename(series, num, title, season)) == Some(EpisodeCode(num / 10, title, season))
    ensures EpisodeCode(num / 10, title, season) != EpisodeCode(num, title, season)
  {
    var code := EpisodeCode(num, title, season);
    LongCodeExtendsShort(num, title, season);
    JoinedStemIsSlug(series, code);
    SlugKeepsSlugs(series + "." + code);
    JoinedStemCode(series, code);
    KnownCodeShape(num / 10, title, season);
    assert code[..7] == EpisodeCode(num / 10, title, season);
    KnownCodesDistinct(num / 10, num, title, title, season);
  }
}
