/** The common-environments agreement of NetworkEnvironmentManager. Every client
    reports the hashes of the environments it has locally; once the server holds as
    many reports as there are connected clients (a stale report from a client that
    has left counts too), it keeps the hashes that every connected client with a
    stored report shares and sends that list to the clients that asked; each of
    those maps the hashes back to its own environment names. Unity's RPC transport, the list of connected
    clients and the directory listing are parameters. */
module EnvironmentManagers {
  import opened Runtime

  /** A client's report: the hashes of its locally available environments. */
  type Hashes = seq<int32>

  /** clientEnvironments: a report per client id, in insertion order. */
  type Reports = seq<(ulong, Hashes)>

  // ------------------------------------------------------------------ the report table

  /** The client ids of a report table, in order. */
  function Ids(d: Reports): (ids: seq<ulong>)
    ensures |ids| == |d| && forall i :: 0 <= i < |d| ==> ids[i] == d[i].0
  {
    if d == [] then [] else [d[0].0] + Ids(d[1..])
  }

  /** No value occurs twice. */
  predicate Distinct(s: seq<ulong>) {
    forall i, j :: 0 <= i < j < |s| ==> s[i] != s[j]
  }

  /** `clientEnvironments[clientId] = hashes`: the report is replaced in place when
      the client has one, and appended otherwise. */
  function Put(d: Reports, id: ulong, hashes: Hashes): Reports
    decreases |d|
  {
    if d == [] then [(id, hashes)]
    else if d[0].0 == id then [(id, hashes)] + d[1..]
    else [d[0]] + Put(d[1..], id, hashes)
  }

  /** Put keeps the order of the client ids, adding the client at the end when it
      is new. */
  lemma {:induction false} PutIds(d: Reports, id: ulong, hashes: Hashes)
    ensures Ids(Put(d, id, hashes)) == if id in Ids(d) then Ids(d) else Ids(d) + [id]
    decreases |d|
  {
    if d != [] {
      assert Ids(d) == [d[0].0] + Ids(d[1..]);
      if d[0].0 != id {
        PutIds(d[1..], id, hashes);
        assert Ids(Put(d, id, hashes)) == [d[0].0] + Ids(Put(d[1..], id, hashes));
      }
    }
  }

  /** Put stores the report under its client and leaves every other client's
      report where it was. */
  lemma {:induction false} PutValues(d: Reports, id: ulong, hashes: Hashes)
    requires Distinct(Ids(d))
    ensures var r := Put(d, id, hashes);
      forall i :: 0 <= i < |r| ==> if r[i].0 == id then r[i].1 == hashes else i < |d| && r[i] == d[i]
    decreases |d|
  {
    if d != [] {
      var r := Put(d, id, hashes);
      if d[0].0 == id {
        assert forall i :: 0 < i < |d| ==> Ids(d)[i] != Ids(d)[0];
      } else {
        assert Distinct(Ids(d[1..])) by {
          assert forall i :: 0 <= i < |d| - 1 ==> Ids(d[1..])[i] == Ids(d)[i + 1];
        }
        PutValues(d[1..], id, hashes);
        var t := Put(d[1..], id, hashes);
        assert forall i :: 0 < i < |r| ==> r[i] == t[i - 1];
      }
    }
  }

  /** Storing a report keeps the client ids distinct. */
  lemma PutDistinct(d: Reports, id: ulong, hashes: Hashes)
    requires Distinct(Ids(d))
    ensures Distinct(Ids(Put(d, id, hashes)))
    ensures |Put(d, id, hashes)| == if id in Ids(d) then |d| else |d| + 1
  {
    PutIds(d, id, hashes);
    if id !in Ids(d) {
      var ids := Ids(d) + [id];
      assert forall i :: 0 <= i < |d| ==> ids[i] == Ids(d)[i] && ids[i] != id;
    }
  }

  // ------------------------------------------------------------------ agreed hashes

  /** The reference definition of an agreed hash: every report of a connected
      client contains it (reports of clients that left do not count). */
  predicate InAll(x: int32, reports: Reports, connected: seq<ulong>) {
    forall i :: 0 <= i < |reports| && reports[i].0 in connected ==> x in reports[i].1
  }

  /** The elements of `xs` that every connected client reported, in order. */
  function Agreed(xs: Hashes, reports: Reports, connected: seq<ulong>): Hashes {
    if xs == [] then []
    else (if InAll(xs[0], reports, connected) then [xs[0]] else []) + Agreed(xs[1..], reports, connected)
  }

  /** The report of the first connected client, if any. */
  function FirstConnected(reports: Reports, connected: seq<ulong>): Option<Hashes> {
    if reports == [] then None
    else if reports[0].0 in connected then Some(reports[0].1)
    else FirstConnected(reports[1..], connected)
  }

  /** What GetCommonHashes promises: the first connected client's hashes that all
      connected clients share, in that client's order; no connected report at all
      leaves the list null, and ToArray throws. */
  function Common(reports: Reports, connected: seq<ulong>): Result<Hashes> {
    match FirstConnected(reports, connected)
    case None => Err(NullReference)
    case Some(first) => Ok(Agreed(first, reports, connected))
  }

  /** The elements of `xs` contained in `hashes`, in order: what the RemoveAt loop
      leaves of the working list. */
  function Filter(xs: Hashes, hashes: Hashes): Hashes {
    if xs == [] then [] else (if xs[0] in hashes then [xs[0]] else []) + Filter(xs[1..], hashes)
  }

  /** The foreach over clientEnvironments, from the working list `acc` on (None
      while no connected client has been seen). */
  function Fold(reports: Reports, connected: seq<ulong>, acc: Option<Hashes>): Option<Hashes>
    decreases |reports|
  {
    if reports == [] then acc
    else
      var id, hashes := reports[0].0, reports[0].1;
      var next :=
        if id !in connected then acc
        else if acc.None? then Some(hashes)
        else Some(Filter(acc.value, hashes));
      Fold(reports[1..], connected, next)
  }

  /** Filter on one element more. */
  lemma {:induction false} FilterSnoc(xs: Hashes, x: int32, hashes: Hashes)
    ensures Filter(xs + [x], hashes) == Filter(xs, hashes) + (if x in hashes then [x] else [])
  {
    if xs != [] {
      assert (xs + [x])[1..] == xs[1..] + [x];
      FilterSnoc(xs[1..], x, hashes);
    }
  }

  /** A connected report in front: agreed means in that report and agreed by the rest. */
  lemma InAllCons(x: int32, id: ulong, hashes: Hashes, rest: Reports, connected: seq<ulong>)
    ensures InAll(x, [(id, hashes)] + rest, connected) <==> (id in connected ==> x in hashes) && InAll(x, rest, connected)
  {
    var reports := [(id, hashes)] + rest;
    if InAll(x, rest, connected) && (id in connected ==> x in hashes) {
      forall i | 0 <= i < |reports| && reports[i].0 in connected
        ensures x in reports[i].1
      {
        if i > 0 {
          assert reports[i] == rest[i - 1];
        }
      }
    }
    if InAll(x, reports, connected) {
      forall i | 0 <= i < |rest| && rest[i].0 in connected
        ensures x in rest[i].1
      {
        assert reports[i + 1] == rest[i];
      }
      assert reports[0] == (id, hashes);
    }
  }

  /** Filtering by a connected report, then keeping what the rest agree on, keeps
      what all of them agree on; a disconnected report changes nothing. */
  lemma {:induction false} AgreedCons(xs: Hashes, id: ulong, hashes: Hashes, rest: Reports, connected: seq<ulong>)
    ensures id in connected ==> Agreed(Filter(xs, hashes), rest, connected) == Agreed(xs, [(id, hashes)] + rest, connected)
    ensures id !in connected ==> Agreed(xs, rest, connected) == Agreed(xs, [(id, hashes)] + rest, connected)
  {
    if xs != [] {
      AgreedCons(xs[1..], id, hashes, rest, connected);
      InAllCons(xs[0], id, hashes, rest, connected);
      var tail := Filter(xs[1..], hashes);
      if xs[0] in hashes {
        assert Filter(xs, hashes) == [xs[0]] + tail;
        assert ([xs[0]] + tail)[1..] == tail;
      } else {
        assert Filter(xs, hashes) == tail;
      }
    }
  }

  /** Filtering a list by a list that holds all of it changes nothing. */
  lemma {:induction false} FilterAll(xs: Hashes, hashes: Hashes)
    requires forall x :: x in xs ==> x in hashes
    ensures Filter(xs, hashes) == xs
  {
    if xs != [] {
      assert xs == [xs[0]] + xs[1..];
      FilterAll(xs[1..], hashes);
    }
  }

  /** Once a working list exists, the loop keeps what every remaining connected
      report agrees on. */
  lemma {:induction false} FoldSome(reports: Reports, connected: seq<ulong>, acc: Hashes)
    ensures Fold(reports, connected, Some(acc)) == Some(Agreed(acc, reports, connected))
    decreases |reports|
  {
    if reports == [] {
      AgreedNone(acc, connected);
    } else {
      var id, hashes, rest := reports[0].0, reports[0].1, reports[1..];
      assert reports == [(id, hashes)] + rest;
      AgreedCons(acc, id, hashes, rest, connected);
      if id in connected {
        FoldSome(rest, connected, Filter(acc, hashes));
      } else {
        FoldSome(rest, connected, acc);
      }
    }
  }

  /** With no reports, every element is agreed. */
  lemma {:induction false} AgreedNone(xs: Hashes, connected: seq<ulong>)
    ensures Agreed(xs, [], connected) == xs
  {
    if xs != [] {
      assert xs == [xs[0]] + xs[1..];
      AgreedNone(xs[1..], connected);
    }
  }

  /** The loop of GetCommonHashes computes Common: the first connected report, cut
      down to what all connected reports share. */
  lemma {:induction false} FoldIsCommon(reports: Reports, connected: seq<ulong>)
    ensures match Fold(reports, connected, None)
      case None => Common(reports, connected) == Err(NullReference)
      case Some(r) => Common(reports, connected) == Ok(r)
    decreases |reports|
  {
    if reports != [] {
      var id, hashes, rest := reports[0].0, reports[0].1, reports[1..];
      assert reports == [(id, hashes)] + rest;
      if id in connected {
        FoldSome(rest, connected, hashes);
        FilterAll(hashes, hashes);
        AgreedCons(hashes, id, hashes, rest, connected);
      } else {
        FoldIsCommon(rest, connected);
        forall xs: Hashes
          ensures Agreed(xs, rest, connected) == Agreed(xs, reports, connected)
        {
          AgreedCons(xs, id, hashes, rest, connected);
        }
      }
    }
  }

  /** Agreed keeps exactly the agreed elements of the list. */
  lemma {:induction false} AgreedMembers(xs: Hashes, reports: Reports, connected: seq<ulong>)
    ensures forall x :: x in Agreed(xs, reports, connected) <==> x in xs && InAll(x, reports, connected)
  {
    if xs != [] {
      AgreedMembers(xs[1..], reports, connected);
      assert xs == [xs[0]] + xs[1..];
    }
  }

  /** Every hash GetCommonHashes returns is in every connected client's report, and
      every hash of the first connected report that all of them contain is
      returned; it throws exactly when no connected client has reported. */
  lemma CommonMeans(reports: Reports, connected: seq<ulong>)
    ensures Common(reports, connected).Err? <==> forall i :: 0 <= i < |reports| ==> reports[i].0 !in connected
    ensures Common(reports, connected).Ok? ==>
      forall x :: x in Common(reports, connected).value <==>
        x in FirstConnected(reports, connected).value && InAll(x, reports, connected)
  {
    FirstConnectedNone(reports, connected);
    if FirstConnected(reports, connected).Some? {
      AgreedMembers(FirstConnected(reports, connected).value, reports, connected);
    }
  }

  /** There is a connected report exactly when FirstConnected finds one. */
  lemma {:induction false} FirstConnectedNone(reports: Reports, connected: seq<ulong>)
    ensures FirstConnected(reports, connected).None? <==> forall i :: 0 <= i < |reports| ==> reports[i].0 !in connected
  {
    if reports != [] {
      FirstConnectedNone(reports[1..], connected);
      assert forall i :: 0 < i < |reports| ==> reports[i] == reports[1..][i - 1];
    }
  }

  /** The reports of connected clients, in order. */
  function ConnectedOnly(reports: Reports, connected: seq<ulong>): Reports {
    if reports == [] then []
    else (if reports[0].0 in connected then [reports[0]] else []) + ConnectedOnly(reports[1..], connected)
  }

  /** Dropping the reports of clients that have left changes no hash's agreement
      and not the first connected report. */
  lemma {:induction false} ConnectedOnlySame(reports: Reports, connected: seq<ulong>)
    ensures forall x :: InAll(x, reports, connected) <==> InAll(x, ConnectedOnly(reports, connected), connected)
    ensures FirstConnected(reports, connected) == FirstConnected(ConnectedOnly(reports, connected), connected)
  {
    if reports != [] {
      var id, hashes, rest := reports[0].0, reports[0].1, reports[1..];
      assert reports == [(id, hashes)] + rest;
      ConnectedOnlySame(rest, connected);
      var tail := ConnectedOnly(rest, connected);
      var kept := ConnectedOnly(reports, connected);
      if id in connected {
        assert kept == [(id, hashes)] + tail;
        assert kept[1..] == tail;
      } else {
        assert kept == tail;
      }
      forall x
        ensures InAll(x, reports, connected) <==> InAll(x, ConnectedOnly(reports, connected), connected)
      {
        InAllCons(x, id, hashes, rest, connected);
        if id in connected {
          InAllCons(x, id, hashes, tail, connected);
        }
      }
    }
  }

  /** Agreed depends only on which hashes are agreed. */
  lemma {:induction false} AgreedSame(xs: Hashes, r1: Reports, r2: Reports, connected: seq<ulong>)
    requires forall x :: InAll(x, r1, connected) <==> InAll(x, r2, connected)
    ensures Agreed(xs, r1, connected) == Agreed(xs, r2, connected)
  {
    if xs != [] {
      AgreedSame(xs[1..], r1, r2, connected);
    }
  }

  /** The reports of clients that have left do not change the result. */
  lemma DisconnectedIgnored(reports: Reports, connected: seq<ulong>)
    ensures Common(reports, connected) == Common(ConnectedOnly(reports, connected), connected)
  {
    ConnectedOnlySame(reports, connected);
    if FirstConnected(reports, connected).Some? {
      AgreedSame(FirstConnected(reports, connected).value, reports, ConnectedOnly(reports, connected), connected);
    }
  }

  // ------------------------------------------------------------------ names and hashes

  /** char.ToUpperInvariant on the ASCII letters. */
  function Upper(c: char): char {
    if 'a' <= c <= 'z' then (c as int - 32) as char else c
  }

  /** char.ToLowerInvariant on the ASCII letters. */
  function Lower(c: char): char {
    if 'A' <= c <= 'Z' then (c as int + 32) as char else c
  }

  /** string.ToLowerInvariant() */
  function ToLowerInvariant(s: string): (r: string)
    ensures |r| == |s| && forall i :: 0 <= i < |s| ==> r[i] == Lower(s[i])
  {
    if s == [] then [] else [Lower(s[0])] + ToLowerInvariant(s[1..])
  }

  /** string.Equals(a, b, StringComparison.InvariantCultureIgnoreCase) */
  predicate SameIgnoringCase(a: string, b: string) {
    |a| == |b| && forall i :: 0 <= i < |a| ==> Upper(a[i]) == Upper(b[i])
  }

  /** GetEnvironmentHash(filename): the hash of the lower-cased name. */
  function EnvironmentHash(filename: string): int32 {
    StringHashCode(ToLowerInvariant(filename))
  }

  /** Names that differ only in letter case have the same hash. */
  lemma HashIgnoresCase(a: string, b: string)
    requires SameIgnoringCase(a, b)
    ensures EnvironmentHash(a) == EnvironmentHash(b)
  {
    var la, lb := ToLowerInvariant(a), ToLowerInvariant(b);
    forall i | 0 <= i < |a|
      ensures la[i] == lb[i]
    {
      SameLetter(a[i], b[i]);
    }
    assert la == lb;
  }

  /** Characters with the same upper case have the same lower case. */
  lemma SameLetter(c: char, d: char)
    requires Upper(c) == Upper(d)
    ensures Lower(c) == Lower(d)
  {
  }

  /** The local environments whose hash is `hash`, in local order. */
  function Named(hash: int32, environments: seq<string>): seq<string> {
    if environments == [] then []
    else
      var last := environments[|environments| - 1];
      Named(hash, environments[..|environments| - 1]) + (if EnvironmentHash(last) == hash then [last] else [])
  }

  /** commonEnvironments after SendNetworkEnvironmentsClientRpc: for each received
      hash in turn, the local environments with that hash. */
  function Matches(hashes: Hashes, environments: seq<string>): seq<string> {
    if hashes == [] then []
    else Matches(hashes[..|hashes| - 1], environments) + Named(hashes[|hashes| - 1], environments)
  }

  /** Named holds each environment with the hash as often as the local list does. */
  lemma {:induction false} NamedCount(hash: int32, environments: seq<string>, e: string)
    ensures multiset(Named(hash, environments))[e] == if EnvironmentHash(e) == hash then multiset(environments)[e] else 0
  {
    if environments != [] {
      var init, last := environments[..|environments| - 1], environments[|environments| - 1];
      assert environments == init + [last];
      NamedCount(hash, init, e);
    }
  }

  /** Every local environment appears in commonEnvironments once per occurrence
      in the local list and per received copy of its hash: nothing else is added. */
  lemma {:induction false} MatchesCount(hashes: Hashes, environments: seq<string>, e: string)
    ensures multiset(Matches(hashes, environments))[e] == multiset(environments)[e] * multiset(hashes)[EnvironmentHash(e)]
  {
    if hashes != [] {
      var init, last := hashes[..|hashes| - 1], hashes[|hashes| - 1];
      assert hashes == init + [last];
      MatchesCount(init, environments, e);
      NamedCount(last, environments, e);
      var m, h := multiset(environments)[e], multiset(init)[EnvironmentHash(e)];
      var before, added := multiset(Matches(init, environments))[e], multiset(Named(last, environments))[e];
      assert multiset(Matches(hashes, environments))[e] == before + added;
      if EnvironmentHash(e) == last {
        assert multiset(hashes)[EnvironmentHash(e)] == h + 1;
        Distribute(m, h, 1);
      } else {
        assert multiset(hashes)[EnvironmentHash(e)] == h;
      }
    }
  }

  lemma Positive(m: nat, h: nat)
    ensures m * h > 0 <==> m > 0 && h > 0
  {
    if m > 0 && h > 0 {
      Distribute(m, h - 1, 1);
    }
  }

  lemma Distribute(m: int, h: int, k: int)
    ensures m * (h + k) == m * h + m * k
  {
  }

  /** An environment is common exactly when it is local and its hash was received. */
  lemma MatchesMeans(hashes: Hashes, environments: seq<string>, e: string)
    ensures e in Matches(hashes, environments) <==> e in environments && EnvironmentHash(e) in hashes
  {
    MatchesCount(hashes, environments, e);
    Positive(multiset(environments)[e], multiset(hashes)[EnvironmentHash(e)]);
  }

  // ------------------------------------------------------------------ available environments

  /** Path.DirectorySeparatorChar and Path.AltDirectorySeparatorChar on Windows. */
  predicate IsSeparator(c: char) {
    c == '\\' || c == '/'
  }

  /** Path.GetExtension(path): the scan from the end of the path for a '.', which
      stops at a separator. */
  function Extension(path: string): string {
    ExtensionFrom(path, |path|)
  }

  /** The scan of Path.GetExtension from position `i` down: a dot found before the
      last character starts the extension, one found at the very end or a
      separator gives none. */
  function ExtensionFrom(path: string, i: nat): string
    requires i <= |path|
  {
    if i == 0 then []
    else if path[i - 1] == '.' then (if i - 1 != |path| - 1 then path[i - 1..] else [])
    else if IsSeparator(path[i - 1]) then []
    else ExtensionFrom(path, i - 1)
  }

  /** The extension is empty or a suffix of the path made of a dot and at least one
      more character, none of them a dot or a separator. */
  lemma ExtensionShape(path: string)
    ensures var ext := Extension(path);
      ext == [] || (2 <= |ext| <= |path| && ext == path[|path| - |ext|..] && ext[0] == '.'
                    && forall k :: |path| - |ext| < k < |path| ==> path[k] != '.' && !IsSeparator(path[k]))
  {
    ExtensionFromShape(path, |path|);
  }

  lemma {:induction false} ExtensionFromShape(path: string, i: nat)
    requires i <= |path| && forall k :: i <= k < |path| ==> path[k] != '.' && !IsSeparator(path[k])
    ensures var ext := ExtensionFrom(path, i);
      ext == [] || (2 <= |ext| <= |path| && ext == path[|path| - |ext|..] && ext[0] == '.'
                    && forall k :: |path| - |ext| < k < |path| ==> path[k] != '.' && !IsSeparator(path[k]))
    decreases i
  {
    if i > 0 && path[i - 1] != '.' && !IsSeparator(path[i - 1]) {
      ExtensionFromShape(path, i - 1);
    }
  }

  /** Conversely, a suffix of that shape is the extension. */
  lemma ExtensionExact(path: string, k: nat)
    requires k < |path| - 1 && path[k] == '.'
    requires forall j :: k < j < |path| ==> path[j] != '.' && !IsSeparator(path[j])
    ensures Extension(path) == path[k..]
  {
    ExtensionScan(path, |path|, k);
  }

  lemma {:induction false} ExtensionScan(path: string, i: nat, k: nat)
    requires k < i <= |path| && k < |path| - 1 && path[k] == '.'
    requires forall j :: k < j < |path| ==> path[j] != '.' && !IsSeparator(path[j])
    ensures ExtensionFrom(path, i) == path[k..]
    decreases i
  {
    if i - 1 != k {
      ExtensionScan(path, i - 1, k);
    }
  }

  /** Path.GetFileName(path): the end of the path after its last separator. */
  function FileName(path: string): string {
    if path == [] || IsSeparator(path[|path| - 1]) then []
    else FileName(path[..|path| - 1]) + [path[|path| - 1]]
  }

  /** The file name is the longest suffix without a separator: a suffix, free of
      separators, and preceded by one unless it is the whole path. */
  lemma {:induction false} FileNameShape(path: string)
    ensures var name := FileName(path);
      && |name| <= |path| && name == path[|path| - |name|..]
      && (forall k :: |path| - |name| <= k < |path| ==> !IsSeparator(path[k]))
      && (|name| < |path| ==> IsSeparator(path[|path| - |name| - 1]))
  {
    if path != [] && !IsSeparator(path[|path| - 1]) {
      var init := path[..|path| - 1];
      FileNameShape(init);
      assert forall k :: 0 <= k < |init| ==> init[k] == path[k];
    }
  }

  /** The inner foreach over the configured extensions: the file's name once per
      extension its own extension equals, ignoring case. */
  function Additions(path: string, extensions: seq<string>): seq<string> {
    if extensions == [] then []
    else
      Additions(path, extensions[..|extensions| - 1])
        + (if SameIgnoringCase(Extension(path), extensions[|extensions| - 1]) then [FileName(path)] else [])
  }

  /** The outer foreach over the files of the environment directory. */
  function FromFiles(files: seq<string>, extensions: seq<string>): seq<string> {
    if files == [] then []
    else FromFiles(files[..|files| - 1], extensions) + Additions(files[|files| - 1], extensions)
  }

  /** The `environments` list UpdateAvailableEnvironments builds: the integrated
      scenes, then the files of the directory if it exists (None: it does not). */
  function Available(sceneNames: seq<string>, listing: Option<seq<string>>, extensions: seq<string>): seq<string> {
    sceneNames + if listing.Some? then FromFiles(listing.value, extensions) else []
  }

  /** Some configured extension equals the file's extension, ignoring case. */
  predicate Configured(path: string, extensions: seq<string>) {
    exists j :: 0 <= j < |extensions| && SameIgnoringCase(Extension(path), extensions[j])
  }

  /** One turn of the outer foreach. */
  lemma FromFilesStep(files: seq<string>, i: nat, extensions: seq<string>)
    requires i < |files|
    ensures FromFiles(files[..i + 1], extensions) == FromFiles(files[..i], extensions) + Additions(files[i], extensions)
  {
    assert files[..i + 1][..i] == files[..i];
  }

  /** One turn of the inner foreach. */
  lemma AdditionsStep(path: string, extensions: seq<string>, j: nat)
    requires j < |extensions|
    ensures Additions(path, extensions[..j + 1])
      == Additions(path, extensions[..j]) + if SameIgnoringCase(Extension(path), extensions[j]) then [FileName(path)] else []
  {
    assert extensions[..j + 1][..j] == extensions[..j];
  }

  /** Only files with a configured extension contribute, and each contributes its
      file name. */
  lemma {:induction false} AdditionsMeans(path: string, extensions: seq<string>)
    ensures forall n :: n in Additions(path, extensions) <==> n == FileName(path) && Configured(path, extensions)
  {
    if extensions != [] {
      var init, last := extensions[..|extensions| - 1], extensions[|extensions| - 1];
      AdditionsMeans(path, init);
      assert Configured(path, extensions) <==> Configured(path, init) || SameIgnoringCase(Extension(path), last) by {
        if Configured(path, extensions) {
          var j :| 0 <= j < |extensions| && SameIgnoringCase(Extension(path), extensions[j]);
          if j < |init| {
            assert init[j] == extensions[j];
          }
        }
        if Configured(path, init) {
          var j :| 0 <= j < |init| && SameIgnoringCase(Extension(path), init[j]);
          assert init[j] == extensions[j];
        }
      }
    }
  }

  /** Some listed file with a configured extension has the name `n`. */
  predicate Listed(files: seq<string>, extensions: seq<string>, n: string) {
    exists i :: 0 <= i < |files| && Configured(files[i], extensions) && n == FileName(files[i])
  }

  /** A name is added from the directory exactly when it is the file name of a
      listed file whose extension is configured, ignoring case. */
  lemma {:induction false} FromFilesMeans(files: seq<string>, extensions: seq<string>, n: string)
    ensures n in FromFiles(files, extensions) <==> Listed(files, extensions, n)
  {
    if files != [] {
      var init, last := files[..|files| - 1], files[|files| - 1];
      FromFilesMeans(init, extensions, n);
      AdditionsMeans(last, extensions);
      ListedSnoc(files, extensions, n);
      assert FromFiles(files, extensions) == FromFiles(init, extensions) + Additions(last, extensions);
    }
  }

  /** Listed on one file more. */
  lemma ListedSnoc(files: seq<string>, extensions: seq<string>, n: string)
    requires files != []
    ensures var init, last := files[..|files| - 1], files[|files| - 1];
      Listed(files, extensions, n) <==> Listed(init, extensions, n) || (Configured(last, extensions) && n == FileName(last))
  {
    var init := files[..|files| - 1];
    if Listed(files, extensions, n) {
      var i :| 0 <= i < |files| && Configured(files[i], extensions) && n == FileName(files[i]);
      if i < |init| {
        assert init[i] == files[i];
      }
    }
    if Listed(init, extensions, n) {
      var i :| 0 <= i < |init| && Configured(init[i], extensions) && n == FileName(init[i]);
      assert init[i] == files[i];
    }
  }

  // ------------------------------------------------------------------ the manager

  class NetworkEnvironmentManager {
    /** The integrated environment scenes and the valid file extensions, as set in
        the editor. */
    const environmentSceneNames: seq<string>
    const fileExtensions: seq<string>

    var environments: seq<string>
    var commonEnvironments: seq<string>
    var clientEnvironments: Reports
    var requestingClients: seq<ulong>

    /** The server's bookkeeping is a dictionary and a list without repeats. */
    predicate Valid()
      reads this
    {
      Distinct(Ids(clientEnvironments)) && Distinct(requestingClients)
    }

    constructor (environmentSceneNames: seq<string>, fileExtensions: seq<string>)
      ensures this.environmentSceneNames == environmentSceneNames && this.fileExtensions == fileExtensions
      ensures environments == [] && commonEnvironments == [] && clientEnvironments == [] && requestingClients == []
      ensures Valid()
    {
      this.environmentSceneNames := environmentSceneNames;
      this.fileExtensions := fileExtensions;
      environments := [];
      commonEnvironments := [];
      clientEnvironments := [];
      requestingClients := [];
    }

    /** UpdateAvailableEnvironments(silent): a spawned manager asks the server
        instead, unless silent; otherwise `environments` is rebuilt from the scenes
        and the directory listing. */
    method UpdateAvailableEnvironments(silent: bool, isSpawned: bool, listing: Option<seq<string>>) returns (requested: bool)
      modifies this
      ensures requested == (isSpawned && !silent)
      ensures environments == if requested then old(environments) else Available(environmentSceneNames, listing, fileExtensions)
      ensures commonEnvironments == old(commonEnvironments) && clientEnvironments == old(clientEnvironments)
      ensures requestingClients == old(requestingClients)
    {
      if isSpawned && !silent {
        return true;
      }
      var list := environmentSceneNames;
      if listing.Some? {
        list := AddFromFiles(list, listing.value, fileExtensions);
      }
      environments := list;
      return false;
    }

    /** RequestNetworkEnvironmentsServerRpc(clientId): the first request of a round
        drops the reports left from before, and a client is recorded once. */
    method RequestNetworkEnvironmentsServerRpc(clientId: ulong)
      requires Valid()
      modifies this
      ensures Valid()
      ensures clientEnvironments == if old(requestingClients) == [] then [] else old(clientEnvironments)
      ensures requestingClients == if clientId in old(requestingClients) then old(requestingClients) else old(requestingClients) + [clientId]
      ensures environments == old(environments) && commonEnvironments == old(commonEnvironments)
    {
      if |requestingClients| == 0 {
        clientEnvironments := [];
      }
      if clientId !in requestingClients {
        requestingClients := requestingClients + [clientId];
      }
    }

    /** GetCommonHashes(), with NetworkManager.ConnectedClientsIds as `connected`. */
    method GetCommonHashes(connected: seq<ulong>) returns (r: Result<Hashes>)
      ensures r == Common(clientEnvironments, connected)
    {
      var reports := clientEnvironments;
      var environments: Option<Hashes> := None;
      var n := 0;
      while n < |reports|
        invariant 0 <= n <= |reports|
        invariant Fold(reports[n..], connected, environments) == Fold(reports, connected, None)
      {
        var clientId, hashes := reports[n].0, reports[n].1;
        if clientId in connected {
          if environments.None? {
            var list: Hashes := [];
            for k := 0 to |hashes|
              invariant list == hashes[..k]
            {
              list := list + [hashes[k]];
            }
            assert hashes[..|hashes|] == hashes;
            environments := Some(list);
          } else {
            var list := RemoveMissing(environments.value, hashes);
            environments := Some(list);
          }
        }
        assert reports[n..][1..] == reports[n + 1..];
        n := n + 1;
      }
      FoldIsCommon(reports, connected);
      if environments.None? {
        return Err(NullReference);
      }
      r := Ok(environments.value);
    }

    /** SendNetworkEnvironmentsServerRpc(clientId, hashes): the report is stored;
        once there are as many reports as connected clients, the common hashes go to
        the requesting clients (returned with them) and both tables are cleared.
        When GetCommonHashes throws, nothing is sent or cleared. */
    method SendNetworkEnvironmentsServerRpc(clientId: ulong, hashes: Hashes, connected: seq<ulong>)
      returns (sent: Option<Result<(Hashes, seq<ulong>)>>)
      requires Valid()
      modifies this
      ensures Valid()
      ensures var stored := Put(old(clientEnvironments), clientId, hashes);
        if |stored| != |connected| then
          sent == None && clientEnvironments == stored && requestingClients == old(requestingClients)
        else
          match Common(stored, connected)
          case Ok(common) =>
            sent == Some(Ok((common, old(requestingClients)))) && clientEnvironments == [] && requestingClients == []
          case Err(f) =>
            sent == Some(Err(f)) && clientEnvironments == stored && requestingClients == old(requestingClients)
      ensures environments == old(environments) && commonEnvironments == old(commonEnvironments)
    {
      PutDistinct(clientEnvironments, clientId, hashes);
      clientEnvironments := Put(clientEnvironments, clientId, hashes);
      if |clientEnvironments| != |connected| {
        return None;
      }
      var common := GetCommonHashes(connected);
      if common.Err? {
        return Some(Err(common.fault));
      }
      sent := Some(Ok((common.value, requestingClients)));
      clientEnvironments := [];
      requestingClients := [];
    }

    /** SendNetworkEnvironmentsClientRpc(hashes): commonEnvironments is rebuilt
        from empty, for each received hash the local environments with that hash. */
    method SendNetworkEnvironmentsClientRpc(hashes: Hashes)
      modifies this
      ensures commonEnvironments == Matches(hashes, environments)
      ensures environments == old(environments) && clientEnvironments == old(clientEnvironments)
      ensures requestingClients == old(requestingClients)
    {
      var local := environments;
      var common := [];
      for i := 0 to |hashes|
        invariant common == Matches(hashes[..i], local)
      {
        assert hashes[..i + 1][..i] == hashes[..i];
        for j := 0 to |local|
          invariant common == Matches(hashes[..i], local) + Named(hashes[i], local[..j])
        {
          assert local[..j + 1][..j] == local[..j];
          if EnvironmentHash(local[j]) == hashes[i] {
            common := common + [local[j]];
          }
        }
        assert local[..|local|] == local;
      }
      assert hashes[..|hashes|] == hashes;
      commonEnvironments := common;
    }
  }

  /** The foreach loops of UpdateAvailableEnvironments over the directory's files
      and the configured extensions, appending to `list`. */
  method AddFromFiles(list: seq<string>, files: seq<string>, extensions: seq<string>) returns (r: seq<string>)
    ensures r == list + FromFiles(files, extensions)
  {
    r := list;
    for i := 0 to |files|
      invariant r == list + FromFiles(files[..i], extensions)
    {
      var extension := Extension(files[i]);
      FromFilesStep(files, i, extensions);
      for j := 0 to |extensions|
        invariant r == list + FromFiles(files[..i], extensions) + Additions(files[i], extensions[..j])
      {
        AdditionsStep(files[i], extensions, j);
        if SameIgnoringCase(extension, extensions[j]) {
          r := r + [FileName(files[i])];
        }
      }
      assert extensions[..|extensions|] == extensions;
    }
    assert files[..|files|] == files;
  }

  /** The RemoveAt loop of GetCommonHashes: an element the report lacks is removed
      and the index steps back, so the element moved into its place is examined
      next. */
  method RemoveMissing(environments: Hashes, hashes: Hashes) returns (list: Hashes)
    ensures list == Filter(environments, hashes)
  {
    list := environments;
    ghost var n := 0;
    var i: int := 0;
    while i < |list|
      invariant 0 <= n <= |environments| && 0 <= i <= |list|
      invariant list == Filter(environments[..n], hashes) + environments[n..]
      invariant i == |Filter(environments[..n], hashes)|
      decreases |list| - i
    {
      RemoveStep(environments, hashes, n, list, i);
      if list[i] !in hashes {
        list := list[..i] + list[i + 1..];
        i := i - 1;
      }
      i := i + 1;
      n := n + 1;
    }
    assert environments[..n] == environments;
  }

  /** One turn of the RemoveAt loop, in terms of the elements examined so far. */
  lemma RemoveStep(environments: Hashes, hashes: Hashes, n: nat, list: Hashes, i: nat)
    requires n <= |environments| && list == Filter(environments[..n], hashes) + environments[n..]
    requires i == |Filter(environments[..n], hashes)| && i < |list|
    ensures n < |environments| && list[i] == environments[n]
    ensures list[i] in hashes ==>
      list == Filter(environments[..n + 1], hashes) + environments[n + 1..] && i + 1 == |Filter(environments[..n + 1], hashes)|
    ensures list[i] !in hashes ==>
      list[..i] + list[i + 1..] == Filter(environments[..n + 1], hashes) + environments[n + 1..]
      && i == |Filter(environments[..n + 1], hashes)|
  {
    var done := Filter(environments[..n], hashes);
    assert list[i] == environments[n];
    assert environments[..n + 1] == environments[..n] + [environments[n]];
    FilterSnoc(environments[..n], environments[n], hashes);
    assert environments[n..] == [environments[n]] + environments[n + 1..];
    if list[i] !in hashes {
      assert list[..i] == done && list[i + 1..] == environments[n + 1..];
    }
  }
}
