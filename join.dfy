/**
 * The counters one `renderConfig` call shares with the completion callbacks
 * of its constructor resolutions, and when they decide to create the
 * children. A resolution may complete synchronously, inside the loop over
 * the config entries, or later; the callbacks and the check after the loop
 * are events on these counters.
 */
module RenderJoin {

  /** `counter` (entries counted, assigned only once the loop is over), `counterLoaded`, `viewsRendered`. */
  datatype Join = Join(counter: nat, loaded: nat, fired: bool)

  /** The counters after an event, and whether that event creates the children. */
  datatype Reaction = Reaction(join: Join, createNow: bool)

  const Start := Join(0, 0, false)

  /** A completion callback: one more resolution loaded; create the children if it is the last one and they were not yet created here. */
  function Resolved(j: Join): (r: Reaction)
    ensures r.join.counter == j.counter && r.join.loaded == j.loaded + 1
    ensures r.createNow <==> j.counter > 0 && r.join.loaded == j.counter && !j.fired
    ensures r.join.fired <==> j.fired || r.createNow
  {
    var loaded := j.loaded + 1;
    if j.counter > 0 && j.counter == loaded && !j.fired then Reaction(Join(j.counter, loaded, true), true)
    else Reaction(Join(j.counter, loaded, j.fired), false)
  }

  /** The end of the loop over `n` entries: `counter` is assigned, then checked against the resolutions loaded so far. */
  function LoopEnded(j: Join, n: nat): (r: Reaction)
    ensures r.join == Join(n, j.loaded, j.fired)
    ensures r.createNow <==> n > 0 && j.loaded == n && !j.fired
  {
    Reaction(j.(counter := n), n > 0 && n == j.loaded && !j.fired)
  }

  /** The counters after `count` successive completion callbacks. */
  function AfterCallbacks(j: Join, count: nat): Join
    decreases count
  {
    if count == 0 then j else AfterCallbacks(Resolved(j).join, count - 1)
  }

  /** For each of `count` successive completion callbacks, whether it creates the children. */
  function Callbacks(j: Join, count: nat): (flags: seq<bool>)
    ensures |flags| == count
    decreases count
  {
    if count == 0 then [] else [Resolved(j).createNow] + Callbacks(Resolved(j).join, count - 1)
  }

  /**
   * The events of one render pass over `n` entries: `sync` resolutions that
   * complete during the loop, the check after the loop, then `late`
   * resolutions completing afterwards; for each, whether it creates the
   * children.
   */
  function Pass(n: nat, sync: nat, late: nat): (flags: seq<bool>)
    ensures |flags| == sync + 1 + late
  {
    var ended := LoopEnded(AfterCallbacks(Start, sync), n);
    Callbacks(Start, sync) + [ended.createNow] + Callbacks(ended.join, late)
  }

  /** While `counter` is still 0 (inside the loop), no callback creates the children. */
  lemma {:induction false} NoCreationDuringLoop(j: Join, count: nat)
    requires j.counter == 0
    ensures AfterCallbacks(j, count) == Join(0, j.loaded + count, j.fired)
    ensures forall i :: 0 <= i < count ==> !Callbacks(j, count)[i]
    decreases count
  {
    if count > 0 {
      NoCreationDuringLoop(Resolved(j).join, count - 1);
    }
  }

  /**
   * Once `counter` is set and the children not yet created, the callbacks
   * that bring `counterLoaded` up to `counter` create them at the last one
   * and only there.
   */
  lemma {:induction false} LastCallbackCreates(j: Join, late: nat)
    requires j.counter > 0 && !j.fired && late > 0 && j.loaded + late == j.counter
    ensures var flags := Callbacks(j, late);
            flags[late - 1] && forall i :: 0 <= i < late - 1 ==> !flags[i]
    decreases late
  {
    if late > 1 {
      LastCallbackCreates(Resolved(j).join, late - 1);
    }
  }

  /**
   * Callbacks beyond the expected number, after the children were created
   * or once `counterLoaded` has reached `counter`, never create them again.
   */
  lemma {:induction false} NoCreationAfterAllLoaded(j: Join, count: nat)
    requires j.counter <= j.loaded || j.fired
    ensures forall i :: 0 <= i < count ==> !Callbacks(j, count)[i]
    decreases count
  {
    if count > 0 {
      NoCreationAfterAllLoaded(Resolved(j).join, count - 1);
    }
  }

  /**
   * The join of `renderConfig`: with `n` entries of which `sync` resolve
   * during the loop and the remaining `n - sync` afterwards, in whatever
   * order, the children are created exactly once, at the last of the
   * `n + 1` events (the `n`-th completion, or the check after the loop when
   * every resolution completed inside it), and never before; with no entries
   * they are never created.
   */
  lemma JoinCreatesOnceAtLastResolution(n: nat, sync: nat)
    requires sync <= n
    ensures var flags := Pass(n, sync, n - sync);
            && |flags| == n + 1
            && (n == 0 ==> forall i :: 0 <= i < |flags| ==> !flags[i])
            && (n > 0 ==> flags[n] && forall i :: 0 <= i < n ==> !flags[i])
  {
    NoCreationDuringLoop(Start, sync);
    var ended := LoopEnded(AfterCallbacks(Start, sync), n);
    var inLoop := Callbacks(Start, sync);
    var late := Callbacks(ended.join, n - sync);
    var flags := Pass(n, sync, n - sync);
    assert flags == inLoop + [ended.createNow] + late;
    if sync < n {
      LastCallbackCreates(ended.join, n - sync);
      assert flags[n] == late[n - sync - 1];
    } else {
      assert flags[n] == ended.createNow;
    }
  }
}
