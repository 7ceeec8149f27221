/** The season run of `main`: read the resume ledger, collect the episode
    links, then for each episode navigate to it, find its manifest, run the
    downloader, and append a row to `titles.csv` on success or to
    `failures.log` on failure. */
module Ripper {
  import opened Base
  import opened Text
  import opened Harvest
  import opened Catalog
  import opened Media
  import opened Ledger

  // ---------------------------------------------------------------------------
  // What the outside world answers for one episode
  // ---------------------------------------------------------------------------

  /** `drv.get(link)` followed by the wait for an `h1, h2` element. */
  datatype NavResult = Loaded | LoadTimeout | DriverFault

  /** The downloader process: its exit status, the program not being found,
      or any other exception while starting it. */
  datatype FetchResult = Exited(status: int) | ToolMissing | FetchFault

  /** Everything the browser and the downloader answer for one episode: the
      navigation, the page heading (`None` when it cannot be read), the
      performance-log batches, the user agent and current URL sent as headers,
      and the downloader's outcome. */
  datatype EpisodeEnv = EpisodeEnv(nav: NavResult, heading: Option<string>, polls: seq<seq<LogEntry>>,
                                   userAgent: string, pageUrl: string, fetch: FetchResult)

  /** The command-line settings and the derived series name. */
  datatype Settings = Settings(series: string, season: int, lang: string, outDir: string)

  // ---------------------------------------------------------------------------
  // The two logs
  // ---------------------------------------------------------------------------

  /** The reason written in the third column of `failures.log`. */
  datatype FailTag = PageLoadTimeout | PageLoadFail | NoMpd | DlFailCode(status: int) | DlException

  function TagText(t: FailTag): string {
    match t
    case PageLoadTimeout => "PAGE_LOAD_TIMEOUT"
    case PageLoadFail => "PAGE_LOAD_FAIL"
    case NoMpd => "NO_MPD"
    case DlFailCode(status) => "DL_FAIL_CODE_" + IntToString(status)
    case DlException => "DL_EXCEPTION"
  }

  /** Different reasons are written differently, so the log says which one
      happened and, for a failed download, with which exit status. */
  lemma TagTextInjective(a: FailTag, b: FailTag)
    ensures TagText(a) == TagText(b) ==> a == b
  {
    var p := "DL_FAIL_CODE_";
    if a.DlFailCode? && b.DlFailCode? {
      assert TagText(a)[|p|..] == IntToString(a.status);
      assert TagText(b)[|p|..] == IntToString(b.status);
      FormatIntRoundTrip(a.status, 0);
      FormatIntRoundTrip(b.status, 0);
      var s := IntToString(a.status);
      if TagText(a) == TagText(b) && a.status < 0 {
        assert s[1..] == IntToString(b.status)[1..];
      }
    } else if a.DlFailCode? || b.DlFailCode? {
      assert (TagText(a)[3] == 'F') != (TagText(b)[3] == 'F');
    }
  }

  /** One line of `failures.log`: `{code},{link},{reason}`. */
  datatype FailRow = FailRow(code: string, link: string, tag: FailTag)

  /** One row of `titles.csv`: the code, the title, the `.mp4` file name. */
  datatype TitleRow = TitleRow(code: string, title: string, file: string)

  /** The cells `writer.writerow` writes for each row. */
  function CsvRows(ts: seq<TitleRow>): (rows: seq<seq<string>>)
    ensures |rows| == |ts|
    ensures forall i :: 0 <= i < |ts| ==> rows[i] == [ts[i].code, ts[i].title, ts[i].file]
  {
    seq(|ts|, i requires 0 <= i < |ts| => [ts[i].code, ts[i].title, ts[i].file])
  }

  /** The upper-cased codes of some title rows. */
  function UpperCodes(ts: seq<TitleRow>): set<string> {
    if ts == [] then {} else {Upper(ts[0].code)} + UpperCodes(ts[1..])
  }

  lemma {:induction false} UpperCodesMembers(ts: seq<TitleRow>, x: string)
    ensures x in UpperCodes(ts) <==> exists i :: 0 <= i < |ts| && Upper(ts[i].code) == x
  {
    if ts != [] {
      UpperCodesMembers(ts[1..], x);
      if x in UpperCodes(ts[1..]) {
        var i :| 0 <= i < |ts[1..]| && Upper(ts[1..][i].code) == x;
        assert ts[i + 1] == ts[1..][i];
      }
      if exists i :: 0 <= i < |ts| && Upper(ts[i].code) == x {
        var i :| 0 <= i < |ts| && Upper(ts[i].code) == x;
        if i > 0 {
          assert ts[1..][i - 1] == ts[i];
        }
      }
    }
  }

  /** What `titles.csv` gains is read back by `previously_done`: every code
      written lands in the next run's ledger, upper-cased. */
  lemma TitlesReadBack(rows: seq<seq<string>>, ts: seq<TitleRow>, stems: seq<string>)
    ensures UpperCodes(ts) <= Done(Some(rows + CsvRows(ts)), stems)
  {
    var all := rows + CsvRows(ts);
    forall x | x in UpperCodes(ts) ensures x in CsvCodes(all) {
      UpperCodesMembers(ts, x);
      var i :| 0 <= i < |ts| && Upper(ts[i].code) == x;
      assert all[|rows| + i] == [ts[i].code, ts[i].title, ts[i].file];
      CsvCodesMembers(all, x);
    }
  }

  // ---------------------------------------------------------------------------
  // One episode
  // ---------------------------------------------------------------------------

  /** The sanity check on the episode page: a non-empty stripped heading that
      does not occur, ignoring ASCII case, in the collected title replaces it. */
  function CheckedTitle(title: string, heading: Option<string>): (r: string)
    ensures r == title || (heading.Some? && r == Trim(heading.value, IsSpace))
    ensures heading.Some? && Trim(heading.value, IsSpace) != [] ==>
      Contains(Lower(r), Lower(Trim(heading.value, IsSpace)))
    ensures (heading.None? || Trim(heading.value, IsSpace) == [] ||
             Contains(Lower(title), Lower(Trim(heading.value, IsSpace)))) ==> r == title
  {
    match heading
    case None => title
    case Some(h) =>
      var w := Trim(h, IsSpace);
      if w != [] && !Contains(Lower(title), Lower(w)) then
        assert OccursAt(Lower(w), Lower(w), 0) by {
          assert Lower(w)[0..|Lower(w)|] == Lower(w);
        }
        w
      else title
  }

  /** The logs and the ledger as the run goes on, and the downloader commands
      started so far. */
  datatype RunState = RunState(done: set<string>, fails: seq<FailRow>, titles: seq<TitleRow>, commands: seq<seq<string>>)

  /** The state after an episode, and whether the run stops there. */
  datatype Step = Step(state: RunState, fatal: bool)

  /** The headers sent to the downloader. */
  function Headers(env: EpisodeEnv): seq<(string, string)> {
    [("User-Agent", env.userAgent), ("Referer", env.pageUrl)]
  }

  /** The body of `for ep_num, ep_title, link in eps`. */
  function ProcessEpisode(st: RunState, ep: Episode, env: EpisodeEnv, cfg: Settings): Step {
    var code := EpisodeCode(ep.num, ep.title, cfg.season);
    if Upper(code) in st.done then Step(st, false)
    else if !StartsWith(ep.href, "http") then Step(st, false)
    else match env.nav
      case LoadTimeout => Step(st.(fails := st.fails + [FailRow(code, ep.href, PageLoadTimeout)]), false)
      case DriverFault => Step(st.(fails := st.fails + [FailRow(code, ep.href, PageLoadFail)]), false)
      case Loaded =>
        var title := CheckedTitle(ep.title, env.heading);
        match FirstManifest(Flatten(env.polls))
        case None => Step(st.(fails := st.fails + [FailRow(code, ep.href, NoMpd)]), false)
        case Some(mpd) =>
          var base := BaseFilename(cfg.series, ep.num, ep.title, cfg.season);
          var started := st.(commands := st.commands + [DownloaderArgs(mpd, cfg.outDir, base, cfg.lang, Headers(env))]);
          match env.fetch
          case ToolMissing => Step(started, true)
          case FetchFault => Step(started.(fails := started.fails + [FailRow(code, ep.href, DlException)]), false)
          case Exited(status) =>
            if status != 0 then Step(started.(fails := started.fails + [FailRow(code, ep.href, DlFailCode(status))]), false)
            else Step(started.(titles := started.titles + [TitleRow(code, title, base + ".mp4")],
                               done := started.done + {Upper(code)}), false)
  }

  /** The episode loop from episode `i` on; `envs(i)` is what episode `i` meets. */
  function RunEpisodes(st: RunState, eps: seq<Episode>, envs: nat -> EpisodeEnv, cfg: Settings, i: nat): Step
    decreases |eps| - i
  {
    if i >= |eps| then Step(st, false)
    else
      var step := ProcessEpisode(st, eps[i], envs(i), cfg);
      if step.fatal then step else RunEpisodes(step.state, eps, envs, cfg, i + 1)
  }

  /** The body of the episode loop for one episode: it appends to the logs,
      the ledger and the started commands, and says whether the run stops. */
  method DownloadEpisode(st: RunState, ep: Episode, env: EpisodeEnv, cfg: Settings)
    returns (next: RunState, fatal: bool)
    ensures Step(next, fatal) == ProcessEpisode(st, ep, env, cfg)
  {
    next, fatal := st, false;
    var code := EpisodeCode(ep.num, ep.title, cfg.season);
    if Upper(code) in st.done || !StartsWith(ep.href, "http") {
      return;
    }
    if env.nav == LoadTimeout {
      next := next.(fails := next.fails + [FailRow(code, ep.href, PageLoadTimeout)]);
      return;
    }
    if env.nav == DriverFault {
      next := next.(fails := next.fails + [FailRow(code, ep.href, PageLoadFail)]);
      return;
    }
    var title := CheckedTitle(ep.title, env.heading);
    var mpd := CaptureMpd(env.polls);
    if mpd.None? {
      next := next.(fails := next.fails + [FailRow(code, ep.href, NoMpd)]);
      return;
    }
    var base := BaseFilename(cfg.series, ep.num, ep.title, cfg.season);
    next := next.(commands := next.commands + [DownloaderArgs(mpd.value, cfg.outDir, base, cfg.lang, Headers(env))]);
    match env.fetch {
      case ToolMissing =>
        fatal := true;
      case FetchFault =>
        next := next.(fails := next.fails + [FailRow(code, ep.href, DlException)]);
      case Exited(status) =>
        if status != 0 {
          next := next.(fails := next.fails + [FailRow(code, ep.href, DlFailCode(status))]);
        } else {
          next := next.(titles := next.titles + [TitleRow(code, title, base + ".mp4")],
                        done := next.done + {Upper(code)});
        }
    }
  }

  /** The episode loop of `main`, writing to the two logs and the ledger. */
  method DownloadEpisodes(done0: set<string>, eps: seq<Episode>, envs: nat -> EpisodeEnv, cfg: Settings)
    returns (st: RunState, fatal: bool)
    ensures Step(st, fatal) == RunEpisodes(RunState(done0, [], [], []), eps, envs, cfg, 0)
  {
    st, fatal := RunState(done0, [], [], []), false;
    var i := 0;
    while i < |eps|
      invariant 0 <= i <= |eps|
      invariant RunEpisodes(st, eps, envs, cfg, i) == RunEpisodes(RunState(done0, [], [], []), eps, envs, cfg, 0)
    {
      st, fatal := DownloadEpisode(st, eps[i], envs(i), cfg);
      if fatal {
        return;
      }
      i := i + 1;
    }
  }

  // ---------------------------------------------------------------------------
  // What the loop promises about the ledger and the logs
  // ---------------------------------------------------------------------------

  /** Title rows whose upper-cased codes are new to `done` and to each other. */
  ghost predicate FreshRecords(done: set<string>, ts: seq<TitleRow>) {
    forall i :: 0 <= i < |ts| ==>
      Upper(ts[i].code) !in done && forall j :: 0 <= j < i ==> Upper(ts[j].code) != Upper(ts[i].code)
  }

  /** `later` follows `earlier`: both logs and the command list only grow,
      and the ledger grows by exactly the codes of the new title rows, each
      recorded once and none already in the ledger. */
  ghost predicate Follows(earlier: RunState, later: RunState) {
    earlier.fails <= later.fails && earlier.titles <= later.titles && earlier.commands <= later.commands &&
    later.done == earlier.done + UpperCodes(later.titles[|earlier.titles|..]) &&
    FreshRecords(earlier.done, later.titles[|earlier.titles|..])
  }

  lemma {:induction false} UpperCodesAppend(a: seq<TitleRow>, b: seq<TitleRow>)
    ensures UpperCodes(a + b) == UpperCodes(a) + UpperCodes(b)
  {
    if a != [] {
      assert (a + b)[1..] == a[1..] + b;
      UpperCodesAppend(a[1..], b);
    } else {
      assert a + b == b;
    }
  }

  lemma FollowsTransitive(a: RunState, b: RunState, c: RunState)
    requires Follows(a, b) && Follows(b, c)
    ensures Follows(a, c)
  {
    var ab, bc := b.titles[|a.titles|..], c.titles[|b.titles|..];
    var ac := c.titles[|a.titles|..];
    assert ac == ab + bc;
    UpperCodesAppend(ab, bc);
    forall i | 0 <= i < |ac|
      ensures Upper(ac[i].code) !in a.done && forall j :: 0 <= j < i ==> Upper(ac[j].code) != Upper(ac[i].code)
    {
      if i >= |ab| {
        assert ac[i] == bc[i - |ab|];
        forall j | 0 <= j < |ab| ensures Upper(ab[j].code) in b.done {
          UpperCodesMembers(ab, Upper(ab[j].code));
        }
        forall j | |ab| <= j < i ensures ac[j] == bc[j - |ab|] { }
      }
    }
  }

  /** One episode appends at most one title row: the episode's code and its
      base file name, for a code not yet in the ledger, which then gains it.
      Without a new row the ledger is unchanged. */
  lemma ProcessEpisodeEffect(st: RunState, ep: Episode, env: EpisodeEnv, cfg: Settings)
    ensures var r := ProcessEpisode(st, ep, env, cfg).state;
      var code := EpisodeCode(ep.num, ep.title, cfg.season);
      st.fails <= r.fails && st.commands <= r.commands &&
      st.titles <= r.titles && |r.titles| <= |st.titles| + 1 &&
      (|r.titles| == |st.titles| ==> r.done == st.done) &&
      (|r.titles| > |st.titles| ==>
        r.titles[|st.titles|].code == code &&
        r.titles[|st.titles|].title == CheckedTitle(ep.title, env.heading) &&
        r.titles[|st.titles|].file == BaseFilename(cfg.series, ep.num, ep.title, cfg.season) + ".mp4" &&
        Upper(code) !in st.done && r.done == st.done + {Upper(code)})
  {
    var code := EpisodeCode(ep.num, ep.title, cfg.season);
    if Upper(code) !in st.done && StartsWith(ep.href, "http") && env.nav.Loaded? {
      var mpd := FirstManifest(Flatten(env.polls));
      if mpd.Some? && env.fetch.Exited? && env.fetch.status == 0 {
        var title := CheckedTitle(ep.title, env.heading);
        var base := BaseFilename(cfg.series, ep.num, ep.title, cfg.season);
        var started := st.(commands := st.commands + [DownloaderArgs(mpd.value, cfg.outDir, base, cfg.lang, Headers(env))]);
        assert ProcessEpisode(st, ep, env, cfg).state ==
          started.(titles := st.titles + [TitleRow(code, title, base + ".mp4")], done := st.done + {Upper(code)});
      }
    }
  }

  /** The reason an episode fails, from what it met. */
  function ExpectedTag(env: EpisodeEnv): FailTag {
    if env.nav == LoadTimeout then PageLoadTimeout
    else if env.nav == DriverFault then PageLoadFail
    else if FirstManifest(Flatten(env.polls)).None? then NoMpd
    else if env.fetch.Exited? then DlFailCode(env.fetch.status)
    else DlException
  }

  /** An episode whose code is in the ledger, or whose link is not absolute,
      is skipped and nothing is written. Any other episode either stops the
      run (the downloader is missing) with nothing written, or writes exactly
      one row: a success row, with its code added to the ledger, exactly when
      the page loaded, a manifest was found and the download exited with 0;
      otherwise a failure row for its code and link with the reason it met. */
  lemma ProcessEpisodeOutcome(st: RunState, ep: Episode, env: EpisodeEnv, cfg: Settings)
    ensures var step := ProcessEpisode(st, ep, env, cfg);
      var code := EpisodeCode(ep.num, ep.title, cfg.season);
      var skipped := Upper(code) in st.done || !StartsWith(ep.href, "http");
      var fetched := env.nav == Loaded && FirstManifest(Flatten(env.polls)).Some?;
      (skipped ==> step == Step(st, false)) &&
      (!skipped ==>
        (step.fatal <==> fetched && env.fetch == ToolMissing) &&
        (step.fatal ==> step.state.fails == st.fails && step.state.titles == st.titles && step.state.done == st.done) &&
        (!step.fatal ==>
          |step.state.fails| + |step.state.titles| == |st.fails| + |st.titles| + 1 &&
          (|step.state.titles| > |st.titles| <==> fetched && env.fetch == Exited(0)) &&
          (|step.state.fails| > |st.fails| ==>
            step.state.fails[|st.fails|] == FailRow(code, ep.href, ExpectedTag(env)))))
  {
    var code := EpisodeCode(ep.num, ep.title, cfg.season);
    if Upper(code) !in st.done && StartsWith(ep.href, "http") && env.nav.Loaded? {
      var mpd := FirstManifest(Flatten(env.polls));
      if mpd.Some? {
        var base := BaseFilename(cfg.series, ep.num, ep.title, cfg.season);
        var started := st.(commands := st.commands + [DownloaderArgs(mpd.value, cfg.outDir, base, cfg.lang, Headers(env))]);
        var step := ProcessEpisode(st, ep, env, cfg);
        match env.fetch {
          case ToolMissing =>
            assert step == Step(started, true);
          case FetchFault =>
            assert step == Step(started.(fails := st.fails + [FailRow(code, ep.href, DlException)]), false);
          case Exited(status) =>
            if status != 0 {
              assert step == Step(started.(fails := st.fails + [FailRow(code, ep.href, DlFailCode(status))]), false);
            }
        }
      }
    }
  }

  /** The downloader is started for an episode exactly when it is not
      skipped, its page loaded and a manifest was captured, and then once, on
      that manifest, writing the episode's base file name into the output
      directory in the chosen language, with the browser's user agent and
      page URL as headers. */
  lemma ProcessEpisodeCommand(st: RunState, ep: Episode, env: EpisodeEnv, cfg: Settings)
    ensures var r := ProcessEpisode(st, ep, env, cfg).state;
      var code := EpisodeCode(ep.num, ep.title, cfg.season);
      var started := Upper(code) !in st.done && StartsWith(ep.href, "http") &&
        env.nav == Loaded && FirstManifest(Flatten(env.polls)).Some?;
      (!started ==> r.commands == st.commands) &&
      (started ==>
        r.commands == st.commands + [DownloaderArgs(FirstManifest(Flatten(env.polls)).value, cfg.outDir,
          BaseFilename(cfg.series, ep.num, ep.title, cfg.season), cfg.lang,
          [("User-Agent", env.userAgent), ("Referer", env.pageUrl)])])
  {
  }

  /** One episode: the ledger grows only by the code of a recorded download,
      which was not in it before. */
  lemma ProcessEpisodeFollows(st: RunState, ep: Episode, env: EpisodeEnv, cfg: Settings)
    ensures Follows(st, ProcessEpisode(st, ep, env, cfg).state)
  {
    var r := ProcessEpisode(st, ep, env, cfg).state;
    ProcessEpisodeEffect(st, ep, env, cfg);
    if |r.titles| == |st.titles| {
      assert r.titles[|st.titles|..] == [];
    } else {
      var added := r.titles[|st.titles|..];
      assert added == [r.titles[|st.titles|]];
      assert UpperCodes(added) == {Upper(added[0].code)};
    }
  }

  /** The whole loop: logs and commands only grow, the ledger grows by exactly
      the recorded codes, and no code is recorded twice or recorded when it
      was already in the ledger. */
  lemma {:induction false} RunEpisodesFollows(st: RunState, eps: seq<Episode>, envs: nat -> EpisodeEnv, cfg: Settings, i: nat)
    ensures Follows(st, RunEpisodes(st, eps, envs, cfg, i).state)
    decreases |eps| - i
  {
    if i < |eps| {
      var step := ProcessEpisode(st, eps[i], envs(i), cfg);
      ProcessEpisodeFollows(st, eps[i], envs(i), cfg);
      if !step.fatal {
        RunEpisodesFollows(step.state, eps, envs, cfg, i + 1);
        FollowsTransitive(st, step.state, RunEpisodes(step.state, eps, envs, cfg, i + 1).state);
      }
    } else {
      assert st.titles[|st.titles|..] == [];
    }
  }

  /** When every episode's code is already in the ledger the run writes
      nothing and starts no download. */
  lemma {:induction false} EverythingDoneWritesNothing(st: RunState, eps: seq<Episode>, envs: nat -> EpisodeEnv, cfg: Settings, i: nat)
    requires forall k :: i <= k < |eps| ==> Upper(EpisodeCode(eps[k].num, eps[k].title, cfg.season)) in st.done
    ensures RunEpisodes(st, eps, envs, cfg, i) == Step(st, false)
    decreases |eps| - i
  {
    if i < |eps| {
      EverythingDoneWritesNothing(st, eps, envs, cfg, i + 1);
    }
  }

  /** The run stops early only when the downloader program is missing. */
  lemma {:induction false} FatalOnlyWhenToolMissing(st: RunState, eps: seq<Episode>, envs: nat -> EpisodeEnv, cfg: Settings, i: nat)
    ensures RunEpisodes(st, eps, envs, cfg, i).fatal ==> exists k :: i <= k < |eps| && envs(k).fetch == ToolMissing
    decreases |eps| - i
  {
    if i < |eps| {
      var step := ProcessEpisode(st, eps[i], envs(i), cfg);
      if !step.fatal {
        FatalOnlyWhenToolMissing(step.state, eps, envs, cfg, i + 1);
      } else {
        assert envs(i).fetch == ToolMissing;
      }
    }
  }

  /** Title row `t` is the record of episode `ep`: its code and the name of
      the `.mp4` file the downloader was told to write. */
  predicate RecordOf(t: TitleRow, ep: Episode, cfg: Settings) {
    t.code == EpisodeCode(ep.num, ep.title, cfg.season) &&
    t.file == BaseFilename(cfg.series, ep.num, ep.title, cfg.season) + ".mp4"
  }

  /** Every title row records one of the collected episodes. */
  ghost predicate RecordsOf(ts: seq<TitleRow>, eps: seq<Episode>, cfg: Settings) {
    forall t :: 0 <= t < |ts| ==> exists k :: 0 <= k < |eps| && RecordOf(ts[t], eps[k], cfg)
  }

  /** Every row the loop appends to `titles.csv` records a collected episode,
      naming the file written for it. */
  lemma {:induction false} RecordedFilesAreBaseNames(st: RunState, eps: seq<Episode>, envs: nat -> EpisodeEnv, cfg: Settings, i: nat)
    requires RecordsOf(st.titles, eps, cfg)
    ensures RecordsOf(RunEpisodes(st, eps, envs, cfg, i).state.titles, eps, cfg)
    decreases |eps| - i
  {
    if i < |eps| {
      var step := ProcessEpisode(st, eps[i], envs(i), cfg);
      ProcessEpisodeEffect(st, eps[i], envs(i), cfg);
      forall t | 0 <= t < |step.state.titles|
        ensures exists k :: 0 <= k < |eps| && RecordOf(step.state.titles[t], eps[k], cfg)
      {
        if t == |st.titles| {
          assert RecordOf(step.state.titles[t], eps[i], cfg);
        } else {
          assert step.state.titles[t] == st.titles[t];
        }
      }
      if !step.fatal {
        RecordedFilesAreBaseNames(step.state, eps, envs, cfg, i + 1);
      }
    }
  }

  // ---------------------------------------------------------------------------
  // The whole run, and running it again
  // ---------------------------------------------------------------------------

  /** `main` after its arguments are parsed: `csv` and `stems` are the resume
      files found, `pageOk` whether the series page loaded with "ViX" in its
      title. A failed page load or an exception from collecting the links ends
      the run with nothing written. */
  function Season(csv: Option<seq<seq<string>>>, stems: seq<string>, pageOk: bool,
                  chooser: RangeChooser, selected: nat -> bool, url: string, obs: nat -> nat -> StepObs,
                  envs: nat -> EpisodeEnv, cfg: Settings): Step {
    var start := RunState(Done(csv, stems), [], [], []);
    if !pageOk then Step(start, false)
    else match CollectLinks(chooser, selected, url, obs)
      case Crashed => Step(start, false)
      case Links(eps) => RunEpisodes(start, eps, envs, cfg, 0)
  }

  /** `main`. */
  method RipSeason(csv: Option<seq<seq<string>>>, stems: seq<string>, pageOk: bool,
                   chooser: RangeChooser, selected: nat -> bool, url: string, obs: nat -> nat -> StepObs,
                   envs: nat -> EpisodeEnv, cfg: Settings)
    returns (st: RunState, fatal: bool)
    ensures Step(st, fatal) == Season(csv, stems, pageOk, chooser, selected, url, obs, envs, cfg)
  {
    var done := PreviouslyDone(csv, stems);
    if !pageOk {
      return RunState(done, [], [], []), false;
    }
    var collected := CollectEpisodeLinks(chooser, selected, url, obs);
    if collected.Crashed? {
      return RunState(done, [], [], []), false;
    }
    st, fatal := DownloadEpisodes(done, collected.episodes, envs, cfg);
  }

  /** Running the season again after a run that appended `first.titles` to
      `titles.csv` never records an episode code a second time, whatever the
      second run meets. */
  lemma NoCodeRecordedTwice(rows: seq<seq<string>>, stems1: seq<string>, stems2: seq<string>,
                            eps1: seq<Episode>, envs1: nat -> EpisodeEnv,
                            eps2: seq<Episode>, envs2: nat -> EpisodeEnv, cfg: Settings)
    ensures var first := RunEpisodes(RunState(Done(Some(rows), stems1), [], [], []), eps1, envs1, cfg, 0).state;
      var second := RunEpisodes(RunState(Done(Some(rows + CsvRows(first.titles)), stems2), [], [], []), eps2, envs2, cfg, 0).state;
      forall a, b :: 0 <= a < |first.titles| && 0 <= b < |second.titles| ==>
        Upper(first.titles[a].code) != Upper(second.titles[b].code)
  {
    var start1 := RunState(Done(Some(rows), stems1), [], [], []);
    var first := RunEpisodes(start1, eps1, envs1, cfg, 0).state;
    var done2 := Done(Some(rows + CsvRows(first.titles)), stems2);
    var start2 := RunState(done2, [], [], []);
    var second := RunEpisodes(start2, eps2, envs2, cfg, 0).state;
    TitlesReadBack(rows, first.titles, stems2);
    RunEpisodesFollows(start2, eps2, envs2, cfg, 0);
    assert second.titles[0..] == second.titles;
    forall a, b | 0 <= a < |first.titles| && 0 <= b < |second.titles|
      ensures Upper(first.titles[a].code) != Upper(second.titles[b].code)
    {
      UpperCodesMembers(first.titles, Upper(first.titles[a].code));
    }
  }
}
