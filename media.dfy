/** Finding the episode's DASH manifest in the browser's performance log
    (`capture_mpd`) and the downloader's command line (`n_m3u8dl_re`). */
module Media {
  import opened Base

  // ---------------------------------------------------------------------------
  // capture_mpd
  // ---------------------------------------------------------------------------

  /** One performance-log entry: a message that does not decode as JSON, or one
      with its `method` field and the request URL (`None` when `params.request.url`
      is missing or is not a string). */
  datatype LogEntry = Unparsable | Message(kind: string, url: Option<string>)

  /** A request for a manifest: `Network.requestWillBeSent` whose URL,
      lower-cased, contains `.mpd`. */
  predicate IsManifestRequest(e: LogEntry) {
    e.Message? && e.kind == "Network.requestWillBeSent" && e.url.Some? &&
    Contains(Lower(e.url.value), ".mpd")
  }

  /** The batches `get_log` returned, one after the other. */
  function Flatten(polls: seq<seq<LogEntry>>): seq<LogEntry> {
    if polls == [] then [] else polls[0] + Flatten(polls[1..])
  }

  /** The URL of the first manifest request among `entries`. */
  function FirstManifest(entries: seq<LogEntry>): Option<string> {
    if entries == [] then None
    else if IsManifestRequest(entries[0]) then Some(entries[0].url.value)
    else FirstManifest(entries[1..])
  }

  /** `None` exactly when no entry requests a manifest; otherwise the URL of
      the earliest one. */
  lemma {:induction false} FirstManifestIsEarliest(entries: seq<LogEntry>)
    ensures FirstManifest(entries).None? <==> forall k :: 0 <= k < |entries| ==> !IsManifestRequest(entries[k])
    ensures FirstManifest(entries).Some? ==>
      exists k :: 0 <= k < |entries| && IsManifestRequest(entries[k]) &&
        FirstManifest(entries).value == entries[k].url.value &&
        forall j :: 0 <= j < k ==> !IsManifestRequest(entries[j])
  {
    if entries != [] {
      FirstManifestIsEarliest(entries[1..]);
      if !IsManifestRequest(entries[0]) {
        forall k | 0 <= k < |entries[1..]| ensures entries[1..][k] == entries[k + 1] { }
        if FirstManifest(entries).Some? {
          var k :| 0 <= k < |entries[1..]| && IsManifestRequest(entries[1..][k]) &&
            FirstManifest(entries[1..]).value == entries[1..][k].url.value &&
            forall j :: 0 <= j < k ==> !IsManifestRequest(entries[1..][j]);
          assert IsManifestRequest(entries[k + 1]);
        }
      } else {
        assert IsManifestRequest(entries[0]);
      }
    }
  }

  /** Whatever `capture_mpd` returns is a URL that names a manifest. */
  lemma ManifestUrlNamesMpd(entries: seq<LogEntry>)
    ensures var r := FirstManifest(entries);
      r.Some? ==> Contains(Lower(r.value), ".mpd")
  {
    FirstManifestIsEarliest(entries);
  }

  /** `capture_mpd(drv, timeout_sec)`: `polls` are the batches `get_log`
      returns before the deadline passes. Entries that fail to decode are
      skipped; the first manifest request ends the search. */
  method CaptureMpd(polls: seq<seq<LogEntry>>) returns (mpd: Option<string>)
    ensures mpd == FirstManifest(Flatten(polls))
  {
    var p := 0;
    while p < |polls|
      invariant 0 <= p <= |polls|
      invariant FirstManifest(Flatten(polls)) == FirstManifest(Flatten(polls[p..]))
    {
      var batch := polls[p];
      assert Flatten(polls[p..]) == batch + Flatten(polls[p + 1..]) by {
        assert polls[p..][1..] == polls[p + 1..];
      }
      var k := 0;
      while k < |batch|
        invariant 0 <= k <= |batch|
        invariant FirstManifest(Flatten(polls)) == FirstManifest(batch[k..] + Flatten(polls[p + 1..]))
        decreases |batch| - k
      {
        var entry := batch[k];
        assert (batch[k..] + Flatten(polls[p + 1..]))[0] == entry;
        assert (batch[k..] + Flatten(polls[p + 1..]))[1..] == batch[k + 1..] + Flatten(polls[p + 1..]);
        match entry {
          case Unparsable =>
          case Message(kind, url) =>
            if kind == "Network.requestWillBeSent" && url.Some? && Contains(Lower(url.value), ".mpd") {
              return url;
            }
        }
        k := k + 1;
      }
      assert batch[k..] + Flatten(polls[p + 1..]) == Flatten(polls[p + 1..]);
      p := p + 1;
    }
    mpd := None;
  }

  // ---------------------------------------------------------------------------
  // n_m3u8dl_re
  // ---------------------------------------------------------------------------

  /** `sum([["--header", f"{k}: {v}"] for k, v in headers.items()], [])`. */
  function HeaderArgs(headers: seq<(string, string)>): (r: seq<string>)
    ensures |r| == 2 * |headers|
  {
    if headers == [] then [] else ["--header", headers[0].0 + ": " + headers[0].1] + HeaderArgs(headers[1..])
  }

  /** Each header becomes the pair `--header`, `name: value`, in order. */
  lemma {:induction false} HeaderArgsLayout(headers: seq<(string, string)>)
    ensures forall i :: 0 <= i < |headers| ==>
      HeaderArgs(headers)[2 * i] == "--header" &&
      HeaderArgs(headers)[2 * i + 1] == headers[i].0 + ": " + headers[i].1
  {
    if headers != [] {
      HeaderArgsLayout(headers[1..]);
      var r := HeaderArgs(headers);
      forall i | 1 <= i < |headers|
        ensures r[2 * i] == "--header" && r[2 * i + 1] == headers[i].0 + ": " + headers[i].1
      {
        assert r[2 * i] == HeaderArgs(headers[1..])[2 * (i - 1)];
        assert r[2 * i + 1] == HeaderArgs(headers[1..])[2 * (i - 1) + 1];
        assert headers[1..][i - 1] == headers[i];
      }
    }
  }

  /** The downloader's argument vector for manifest `mpd`, writing
      `saveDir/saveName.*`, with audio and subtitles in `lang`. */
  function DownloaderArgs(mpd: string, saveDir: string, saveName: string, lang: string,
                          headers: seq<(string, string)>): seq<string> {
    ["N_m3u8DL-RE", mpd,
     "--save-dir", saveDir,
     "--save-name", saveName,
     "--thread-count", "8",
     "-sv", "best",
     "-sa", "best:lang=" + lang,
     "-ss", lang,
     "--del-after-done"] + HeaderArgs(headers)
  }

  /** The command runs `N_m3u8DL-RE` on the manifest with each option followed
      by its value, and ends with the headers. */
  lemma DownloaderArgsLayout(mpd: string, saveDir: string, saveName: string, lang: string,
                             headers: seq<(string, string)>)
    ensures var a := DownloaderArgs(mpd, saveDir, saveName, lang, headers);
      |a| == 15 + 2 * |headers| &&
      a[0] == "N_m3u8DL-RE" && a[1] == mpd &&
      a[2] == "--save-dir" && a[3] == saveDir &&
      a[4] == "--save-name" && a[5] == saveName &&
      a[11] == "best:lang=" + lang && a[13] == lang && a[14] == "--del-after-done" &&
      forall i :: 0 <= i < |headers| ==>
        a[15 + 2 * i] == "--header" && a[16 + 2 * i] == headers[i].0 + ": " + headers[i].1
  {
    HeaderArgsLayout(headers);
    var a := DownloaderArgs(mpd, saveDir, saveName, lang, headers);
    assert a[15..] == HeaderArgs(headers);
  }
}
