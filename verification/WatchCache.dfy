/** internal/watch/watch_cache.go: the running watches, one per GroupVersionResource. */
module WatchCaches {
  import opened Prelude

  /** A stop channel; closing one twice would panic. */
  class StopChannel {
    var closed: bool

    constructor ()
      ensures !closed
    {
      closed := false;
    }

    method Close()
      requires !closed
      modifies this
      ensures closed
    {
      closed := true;
    }
  }

  class Watch<G> {
    const gvr: G
    var stopCh: StopChannel?
    var running: bool

    constructor (gvr: G)
      ensures this.gvr == gvr && !running
    {
      this.gvr, stopCh, running := gvr, null, false;
    }

    method Start()
      modifies this
      ensures running && stopCh != null && fresh(stopCh) && !stopCh.closed
    {
      stopCh := new StopChannel();
      running := true;
    }

    method Stop()
      requires running ==> stopCh != null && !stopCh.closed
      modifies this`running, if stopCh == null then {} else {stopCh}
      ensures !running && (old(running) ==> stopCh.closed)
      ensures !old(running) && stopCh != null ==> stopCh.closed == old(stopCh.closed)
    {
      if !running {
        return;
      }
      stopCh.Close();
      running := false;
    }
  }

  class WatchCache<G(==)> {
    var watches: map<G, Watch<G>>
    /** The ActiveWatches gauge. */
    var activeWatches: int
    /** Every watch ever started, with its channel, and for each channel the watch it belongs to. */
    ghost var channels: map<Watch<G>, StopChannel>
    ghost var owners: map<StopChannel, Watch<G>>

    /** A started watch runs, its channel open, exactly while it is in the cache. */
    ghost predicate WatchOk(w: Watch<G>)
      requires w in channels
      reads this`watches, this`channels, this`owners, w, channels[w]
    {
      && w.stopCh == channels[w] && channels[w] in owners && owners[channels[w]] == w
      && (w.running <==> w.gvr in watches && watches[w.gvr] == w)
      && (w.running <==> !channels[w].closed)
    }

    ghost predicate Valid()
      reads this, channels.Keys, channels.Values
    {
      && (forall w {:trigger WatchOk(w)} :: w in channels ==> WatchOk(w))
      && (forall g {:trigger watches[g]} :: g in watches ==> watches[g] in channels && watches[g].gvr == g)
      && activeWatches == |watches|
    }

    /** Since an earlier state the record has forgotten no watch, and only new watches with new channels
        have been added. */
    twostate predicate Grown(before: map<Watch<G>, StopChannel>)
      reads `channels
    {
      && (forall w <- before :: w in channels && channels[w] == before[w])
      && (forall w <- channels :: w in before || (fresh(w) && fresh(channels[w])))
    }

    /** Every watch ever started is either in the cache and open, or was stopped. */
    ghost predicate Accounted()
      reads this, channels.Keys, channels.Values
    {
      && (forall w <- channels :: if w.gvr in watches && watches[w.gvr] == w then w.running && !channels[w].closed
            else !w.running && channels[w].closed)
      && (forall g <- watches :: watches[g] in channels)
      && activeWatches == |watches|
    }

    lemma ValidAccounts()
      requires Valid()
      ensures Accounted()
    {
      forall w | w in channels
        ensures if w.gvr in watches && watches[w.gvr] == w then w.running && !channels[w].closed
          else !w.running && channels[w].closed
      {
        assert WatchOk(w);
      }
    }

    constructor ()
      ensures Valid() && watches == map[] && channels == map[]
    {
      watches, activeWatches := map[], 0;
      channels, owners := map[], map[];
    }

    /** A watch that is in the cache already is replaced without being stopped; Register calls this for
        GVRs without a watch only. */
    method Start(gvr: G)
      requires Valid()
      modifies this
      ensures Valid() <==> gvr !in old(watches)
      ensures watches.Keys == old(watches.Keys) + {gvr}
      ensures forall g <- old(watches) :: g != gvr ==> watches[g] == old(watches)[g]
      ensures activeWatches == old(activeWatches) + 1
      ensures Grown(old(channels)) && watches[gvr] !in old(channels)
      ensures channels.Keys == old(channels.Keys) + {watches[gvr]}
      ensures gvr in old(watches) ==> Leaked(old(watches[gvr]))
    {
      var w := new Watch(gvr);
      w.Start();
      assert gvr in watches ==> WatchOk(watches[gvr]);
      Insert(w);
    }

    /** Running with an open channel, but not in the cache. */
    ghost predicate Leaked(w: Watch<G>)
      reads this, w, channels.Values
    {
      w in channels && w.running && !channels[w].closed && w !in watches.Values
    }

    method Insert(w: Watch<G>)
      requires Valid() && w !in channels
      requires w.running && w.stopCh != null && w.stopCh !in owners && !w.stopCh.closed
      modifies this
      ensures w.gvr !in old(watches) ==> Valid()
      ensures watches == old(watches)[w.gvr := w] && channels == old(channels)[w := w.stopCh]
      ensures activeWatches == old(activeWatches) + 1
    {
      watches := watches[w.gvr := w];
      activeWatches := activeWatches + 1;
      channels, owners := channels[w := w.stopCh], owners[w.stopCh := w];
      if w.gvr !in old(watches) {
        forall x | x in channels
          ensures WatchOk(x)
        {
          assert x != w ==> old(WatchOk(x));
        }
      }
    }

    method Stop(gvr: G)
      requires Valid()
      modifies this, channels.Keys, channels.Values
      ensures Valid() && channels == old(channels)
      ensures watches == old(watches) - {gvr}
    {
      if gvr !in watches {
        return;
      }
      var w := watches[gvr];
      assert WatchOk(w);
      w.Stop();
      watches := watches - {gvr};
      activeWatches := activeWatches - 1;
      forall x | x in channels
        ensures WatchOk(x)
      {
        assert old(WatchOk(x));
      }
    }

    predicate Exists(gvr: G)
      reads this
    {
      gvr in watches
    }

    method StopAll()
      requires Valid()
      modifies this, channels.Keys, channels.Values
      ensures Valid() && channels == old(channels) && watches == map[]
    {
      var todo := watches.Keys;
      while todo != {}
        invariant Valid() && channels == old(channels) && watches.Keys == todo
      {
        var gvr :| gvr in todo;
        Stop(gvr);
        todo := todo - {gvr};
      }
    }

    method Prune(gvrs: seq<G>)
      requires Valid()
      modifies this, channels.Keys, channels.Values
      ensures Valid() && channels == old(channels)
      ensures watches.Keys == old(watches.Keys) * Elements(gvrs) && forall g <- watches :: watches[g] == old(watches)[g]
    {
      var keep := map[];
      for i := 0 to |gvrs|
        invariant keep.Keys == set g | g in gvrs[..i]
      {
        keep := keep[gvrs[i] := true];
      }
      assert keep.Keys == Elements(gvrs);
      StopUnless(keep);
    }

    /** Prune's second loop. */
    method StopUnless(keep: map<G, bool>)
      requires Valid()
      modifies this, channels.Keys, channels.Values
      ensures Valid() && channels == old(channels)
      ensures watches.Keys == old(watches.Keys) * keep.Keys && forall g <- watches :: watches[g] == old(watches)[g]
    {
      var todo := watches.Keys;
      while todo != {}
        invariant Valid() && channels == old(channels) && todo <= watches.Keys <= old(watches.Keys)
        invariant forall g <- watches :: watches[g] == old(watches)[g]
        invariant forall g <- old(watches.Keys) - todo :: g in watches <==> g in keep
      {
        var gvr :| gvr in todo;
        if gvr !in keep {
          Stop(gvr);
        }
        todo := todo - {gvr};
      }
    }
  }
}
