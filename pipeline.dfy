/**
 * `parseData` run with a single worker, and the part of `main` that decides whether it runs.
 * The directory walk is given as the sequence of entries it visits, in order; each entry that
 * is not a directory carries its content, or None when it cannot be read.
 */
module Pipeline {
  import opened Wrappers
  import opened Results
  import Secret
  import Endpoint
  import Settings

  /**
   * An entry the walk visits. `File` is any entry that is not a directory: a regular file,
   * but equally a symbolic link, socket or device, since the walk only asks `IsDir`.
   */
  datatype Entry = File(content: Option<string>) | Directory | WalkError

  /**
   * The files the walk hands to the workers: non-directory entries in visiting order;
   * directories are skipped, and the first error ends the walk.
   */
  function Fed(walk: seq<Entry>): (r: seq<Option<string>>)
    ensures |r| <= |walk|
  {
    if walk == [] then []
    else match walk[0]
      case WalkError => []
      case Directory => Fed(walk[1..])
      case File(c) => [c] + Fed(walk[1..])
  }

  /**
   * What one category's channel receives: the findings `scan` reports for each file, in the
   * order the files are fed; a file that cannot be read yields nothing.
   */
  function Collect(files: seq<Option<string>>, scan: string -> seq<string>): (r: seq<string>)
    ensures forall x :: x in r ==> exists t :: Some(t) in files && x in scan(t)
  {
    if files == [] then [] else Scan(files[0], scan) + Collect(files[1..], scan)
  }

  /** The findings for one fed file: none when it could not be read. */
  function Scan(content: Option<string>, scan: string -> seq<string>): (r: seq<string>)
    ensures forall x :: x in r ==> content.Some? && x in scan(content.value)
  {
    match content
    case None => []
    case Some(t) => scan(t)
  }

  function SecretsOf(files: seq<Option<string>>): seq<string> {
    Collect(files, Secret.Find)
  }

  function EndpointsOf(files: seq<Option<string>>): seq<string> {
    Collect(files, Endpoint.Find)
  }

  /** Every line the secrets channel receives is a well-formed secret finding. */
  lemma {:induction false} SecretsWellFormed(files: seq<Option<string>>)
    ensures forall f :: f in SecretsOf(files) ==> Secret.IsSecretFinding(f)
  {
    if files != [] {
      SecretsWellFormed(files[1..]);
    }
  }

  /** Every line the endpoints channel receives is a word of the endpoint pattern. */
  lemma {:induction false} EndpointsWellFormed(files: seq<Option<string>>)
    ensures forall f :: f in EndpointsOf(files) ==> Endpoint.IsEndpointWord(f)
  {
    if files != [] {
      EndpointsWellFormed(files[1..]);
    }
  }

  /**
   * Only files are fed, each from an entry the walk visits; a walk made only of files feeds
   * every one of them.
   */
  lemma {:induction false} FedFromWalk(walk: seq<Entry>)
    ensures forall c :: c in Fed(walk) ==> File(c) in walk
    ensures (forall k :: 0 <= k < |walk| ==> walk[k].File?) ==> Fed(walk) == seq(|walk|, k requires 0 <= k < |walk| => walk[k].content)
  {
    if walk != [] {
      FedFromWalk(walk[1..]);
    }
  }

  /** Without an error, feeding a longer walk feeds the shorter one's files, then the new entry's. */
  lemma {:induction false} FedAppend(walk: seq<Entry>, e: Entry)
    requires forall k :: 0 <= k < |walk| ==> !walk[k].WalkError?
    ensures Fed(walk + [e]) == Fed(walk) + Fed([e])
  {
    if walk != [] {
      assert (walk + [e])[1..] == walk[1..] + [e];
      FedAppend(walk[1..], e);
    }
  }

  /** Nothing after a walk error is scanned. */
  lemma {:induction false} WalkStopsAtError(before: seq<Entry>, after: seq<Entry>)
    ensures Fed(before + [WalkError] + after) == Fed(before)
  {
    if before != [] {
      assert (before + [WalkError] + after)[1..] == before[1..] + [WalkError] + after;
      WalkStopsAtError(before[1..], after);
    }
  }

  /** Where the feeding loop stops, it has fed everything the walk feeds. */
  lemma FedUpToStop(walk: seq<Entry>, i: nat)
    requires i <= |walk| && (i == |walk| || walk[i].WalkError?)
    ensures Fed(walk[..i]) == Fed(walk)
  {
    if i < |walk| {
      assert walk == walk[..i] + [WalkError] + walk[i + 1..];
      WalkStopsAtError(walk[..i], walk[i + 1..]);
    } else {
      assert walk[..i] == walk;
    }
  }

  lemma {:induction false} CollectAppend(a: seq<Option<string>>, b: seq<Option<string>>, scan: string -> seq<string>)
    ensures Collect(a + b, scan) == Collect(a, scan) + Collect(b, scan)
  {
    if a == [] {
      assert a + b == b;
    } else {
      assert (a + b)[0] == a[0] && (a + b)[1..] == a[1..] + b;
      CollectAppend(a[1..], b, scan);
    }
  }

  lemma CollectOne(x: Option<string>, scan: string -> seq<string>)
    ensures Collect([x], scan) == Scan(x, scan)
  {
    assert [x][1..] == [];
  }

  /** One more walk entry adds the findings of that entry's file, if it is a readable file. */
  lemma CollectStep(walk: seq<Entry>, i: nat, scan: string -> seq<string>)
    requires i < |walk| && forall k :: 0 <= k < i ==> !walk[k].WalkError?
    ensures Collect(Fed(walk[..i + 1]), scan) == Collect(Fed(walk[..i]), scan) +
      (if walk[i].File? then Scan(walk[i].content, scan) else [])
  {
    assert walk[..i + 1] == walk[..i] + [walk[i]];
    FedAppend(walk[..i], walk[i]);
    CollectAppend(Fed(walk[..i]), Fed([walk[i]]), scan);
    if walk[i].File? {
      assert Fed([walk[i]]) == [walk[i].content];
      CollectOne(walk[i].content, scan);
    } else {
      assert Fed([walk[i]]) == [];
    }
  }

  /** An unreadable file contributes no findings and does not affect the others. */
  lemma UnreadableFileIgnored(before: seq<Option<string>>, after: seq<Option<string>>, scan: string -> seq<string>)
    ensures Collect(before + [None] + after, scan) == Collect(before + after, scan)
  {
    CollectAppend(before + [None], after, scan);
    CollectAppend(before, [None], scan);
    CollectAppend(before, after, scan);
  }

  /**
   * Every finding is one line, so reading a results file back line by line gives exactly the
   * deduplicated findings, and running `writeResults` over a file's own lines rewrites it unchanged.
   */
  lemma ResultsFilesReadBack(files: seq<Option<string>>)
    ensures ReadLines(Render(Dedup(SecretsOf(files)))) == Dedup(SecretsOf(files))
    ensures ReadLines(Render(Dedup(EndpointsOf(files)))) == Dedup(EndpointsOf(files))
    ensures Render(Dedup(ReadLines(Render(Dedup(SecretsOf(files)))))) == Render(Dedup(SecretsOf(files)))
    ensures Render(Dedup(ReadLines(Render(Dedup(EndpointsOf(files)))))) == Render(Dedup(EndpointsOf(files)))
  {
    SecretsWellFormed(files);
    EndpointsWellFormed(files);
    forall f | f in SecretsOf(files) ensures '\n' !in f {
      Secret.FindingIsOneLine(f);
    }
    forall f | f in EndpointsOf(files) ensures '\n' !in f {
      Endpoint.WordIsClean(f);
    }
    ReadLinesRender(Dedup(SecretsOf(files)));
    ReadLinesRender(Dedup(EndpointsOf(files)));
    WriteResultsIdempotent(SecretsOf(files));
    WriteResultsIdempotent(EndpointsOf(files));
  }

  /**
   * The walk callback and the single worker: every file the walk feeds is read once and
   * handed to both matchers; the findings go to the two channels in feeding order.
   */
  method Feed(walk: seq<Entry>, secretScan: string -> seq<string>, endpointScan: string -> seq<string>)
    returns (secrets: seq<string>, endpoints: seq<string>)
    ensures secrets == Collect(Fed(walk), secretScan)
    ensures endpoints == Collect(Fed(walk), endpointScan)
  {
    secrets, endpoints := [], [];
    var i := 0;
    while i < |walk| && !walk[i].WalkError?
      invariant 0 <= i <= |walk|
      invariant forall k :: 0 <= k < i ==> !walk[k].WalkError?
      invariant secrets == Collect(Fed(walk[..i]), secretScan)
      invariant endpoints == Collect(Fed(walk[..i]), endpointScan)
    {
      CollectStep(walk, i, secretScan);
      CollectStep(walk, i, endpointScan);
      if walk[i].File? {
        var content := walk[i].content;
        secrets := secrets + Scan(content, secretScan);
        endpoints := endpoints + Scan(content, endpointScan);
      }
      i := i + 1;
    }
    FedUpToStop(walk, i);
  }

  /**
   * The scan with one worker, then each category through `writeResults`. `secretsCreated`
   * and `endpointsCreated` say whether the two output files could be created.
   */
  method ParseData(walk: seq<Entry>, secretsCreated: bool, endpointsCreated: bool)
    returns (secretsFile: Option<string>, endpointsFile: Option<string>)
    ensures secretsFile == if secretsCreated then Some(Render(Dedup(SecretsOf(Fed(walk))))) else None
    ensures endpointsFile == if endpointsCreated then Some(Render(Dedup(EndpointsOf(Fed(walk))))) else None
  {
    var secrets, endpoints := Feed(walk, Secret.Find, Endpoint.Find);
    secretsFile := WriteResults(secretsCreated, secrets);
    endpointsFile := WriteResults(endpointsCreated, endpoints);
  }

  datatype Outcome =
    | UsageError
    | Completed(outputDir: string, deviceDir: string, secretsFile: Option<string>, endpointsFile: Option<string>)

  /**
   * `main` without the external tools: validate the flags, default the directories, then scan.
   * The remaining flags keep their defaults (MobSF on, no traffic capture, quiet), except
   * that `-n 1` is taken: one parsing worker, so findings arrive in walk order.
   */
  method Run(apkPath: string, packageName: string, outputDir: string, deviceDir: string,
             walk: seq<Entry>, secretsCreated: bool, endpointsCreated: bool) returns (o: Outcome)
    ensures o.UsageError? <==> apkPath == "" || packageName == ""
    ensures o.Completed? ==> o.outputDir == Settings.OutputDirFor(packageName, outputDir)
    ensures o.Completed? ==> o.deviceDir == Settings.DeviceDirFor(packageName, deviceDir)
    ensures o.Completed? ==>
      o.secretsFile == (if secretsCreated then Some(Render(Dedup(SecretsOf(Fed(walk))))) else None)
    ensures o.Completed? ==>
      o.endpointsFile == (if endpointsCreated then Some(Render(Dedup(EndpointsOf(Fed(walk))))) else None)
  {
    var config := new Settings.Config(apkPath, packageName, outputDir, deviceDir, true, false, false, 1);
    if !config.HasRequired() {
      return UsageError;
    }
    config.ApplyDefaults();
    var secretsFile, endpointsFile := ParseData(walk, secretsCreated, endpointsCreated);
    return Completed(config.outputDir, config.deviceDir, secretsFile, endpointsFile);
  }
}
