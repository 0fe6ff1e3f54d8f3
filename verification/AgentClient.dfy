/** The agent's scan cycle and cache flush as it runs them, against the specification in module Agent. */
module AgentClientLoop {
  import opened Common
  import opened A = Agent

  class AgentClient {
    var cache: A.Cache               // data_dir/cache/*.json
    ghost var sent: seq<A.Delivery>  // scan results handed to a hub connection without error
    ghost var saves: seq<A.Save>

    ghost function State(): A.AgentState
      reads this
    {
      A.AgentState(cache, sent, saves)
    }

    constructor ()
      ensures State() == A.FRESH_AGENT
    {
      cache, sent, saves := map[], [], [];
    }

    method Save(image: string, payload: A.Payload, digest: string, at: int)
      modifies this`cache, this`saves
      ensures cache == old(cache)[A.SafeFilename(image) := A.Entry(payload, digest, at)]
      ensures saves == old(saves) + [A.Save(image, payload, at)]
    {
      cache := cache[A.SafeFilename(image) := A.Entry(payload, digest, at)];
      saves := saves + [A.Save(image, payload, at)];
    }

    method Clear(image: string)
      modifies this`cache
      ensures cache == old(cache) - {A.SafeFilename(image)}
    {
      cache := cache - {A.SafeFilename(image)};
    }

    /** `delivered` says whether the connection took the message; a failure is logged and swallowed. */
    method SendScanResult(payload: A.Payload, delivered: bool)
      modifies this`sent
      ensures sent == if delivered then old(sent) + [A.Delivery(payload, |saves|)] else old(sent)
    {
      if delivered {
        sent := sent + [A.Delivery(payload, |saves|)];
      }
    }

    /** First container name and digest of each image win. */
    method Deduplicate(rows: seq<A.Running>)
      returns (containerMap: map<string, string>, digestMap: map<string, string>, imageNames: seq<string>)
      ensures imageNames == A.ImageNames(rows)
      ensures containerMap.Keys == digestMap.Keys == A.Dedup(rows).Keys
      ensures forall n :: n in containerMap ==>
        A.Dedup(rows)[n] == A.Running(n, containerMap[n], digestMap[n])
    {
      containerMap, digestMap, imageNames := map[], map[], [];
      for i := 0 to |rows|
        invariant imageNames == A.ImageNames(rows[..i])
        invariant containerMap.Keys == digestMap.Keys == A.Dedup(rows[..i]).Keys
        invariant forall n :: n in containerMap ==>
          A.Dedup(rows[..i])[n] == A.Running(n, containerMap[n], digestMap[n])
      {
        assert rows[..i + 1][..i] == rows[..i];
        if rows[i].image !in containerMap {
          containerMap := containerMap[rows[i].image := rows[i].container];
          digestMap := digestMap[rows[i].image := rows[i].digest];
          imageNames := imageNames + [rows[i].image];
        }
      }
      assert rows[..|rows|] == rows;
    }

    method SelectImages(ghost rows: map<string, A.Running>, digestMap: map<string, string>, imageNames: seq<string>,
                        now: int, maxAgeDays: nat)
      returns (toScan: seq<string>)
      requires forall n :: n in imageNames ==> n in rows && n in digestMap
      requires forall n :: n in imageNames ==> rows[n].image == n && rows[n].digest == digestMap[n]
      ensures toScan == A.ToScan(cache, rows, imageNames, now, maxAgeDays)
    {
      toScan := [];
      for i := 0 to |imageNames|
        invariant toScan == A.ToScan(cache, rows, imageNames[..i], now, maxAgeDays)
      {
        assert imageNames[..i + 1][..i] == imageNames[..i];
        var image := imageNames[i];
        var currentDigest := digestMap[image];
        var cachedDigest := A.CachedDigest(cache, image);
        var stale := A.Stale(cache, image, now, maxAgeDays);
        if !(currentDigest != "" && currentDigest == cachedDigest && !stale) {
          toScan := toScan + [image];
        }
      }
      assert imageNames[..|imageNames|] == imageNames;
    }

    /** The report is on disk before it is sent. */
    method SaveThenSend(image: string, container: string, digest: string, trial: A.Trial)
      modifies this
      ensures State() == A.SaveAndSend(old(State()), A.Running(image, container, digest), trial)
    {
      match trial
      case Failed =>
      case Scanned(body, at, delivered) =>
        var payload := A.Payload(A.Report(image, body), Some(container));
        Save(image, payload, digest, at);
        SendScanResult(payload, delivered);
    }

    method ScanImages(ghost rows: map<string, A.Running>, containerMap: map<string, string>,
                      digestMap: map<string, string>, toScan: seq<string>, trials: map<string, A.Trial>)
      requires forall n :: n in toScan ==> n in containerMap && n in digestMap && n in rows
      requires forall n :: n in toScan ==> rows[n] == A.Running(n, containerMap[n], digestMap[n])
      modifies this
      ensures State() == A.ScanAll(old(State()), rows, toScan, trials)
    {
      ghost var before := State();
      for i := 0 to |toScan|
        invariant State() == A.ScanAll(before, rows, toScan[..i], trials)
      {
        var image := toScan[i];
        SaveThenSend(image, containerMap[image], digestMap[image], A.TrialOf(trials, image));
        assert toScan[..i + 1][..i] == toScan[..i] && toScan[..i + 1][i] == image;
      }
      assert toScan[..|toScan|] == toScan;
    }

    method RunScanCycle(rows: seq<A.Running>, now: int, maxAgeDays: nat, trials: map<string, A.Trial>)
      modifies this
      ensures State() == A.Cycle(old(State()), rows, now, maxAgeDays, trials)
    {
      var containerMap, digestMap, imageNames := Deduplicate(rows);
      var toScan := SelectImages(A.Dedup(rows), digestMap, imageNames, now, maxAgeDays);
      ScanImages(A.Dedup(rows), containerMap, digestMap, toScan, trials);
    }

    /** `files` is the order in which the cache directory lists its entries. */
    method FlushCache(files: seq<string>, delivered: set<string>)
      modifies this`cache, this`sent
      ensures State() == A.Flush(old(State()), files, delivered)
    {
      var cached := cache;
      for i := 0 to |files|
        invariant State() == A.FlushAll(old(State()), cached, files[..i], delivered)
      {
        assert files[..i + 1][..i] == files[..i];
        if files[i] in cached && files[i] in delivered {
          var payload := cached[files[i]].payload;
          SendScanResult(payload, true);
          Clear(payload.report.artifact);
        }
      }
      assert files[..|files|] == files;
    }
  }
}
