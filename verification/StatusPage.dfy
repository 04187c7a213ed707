/** The one page of commit statuses the controller reads, against the full list. */
module StatusPage {
  import opened QueueHistory
  import opened Wrappers

  const PAGE: nat := 100

  /** The newest hundred. */
  function Visible(ss: seq<Status>): seq<Status> { if |ss| <= PAGE then ss else ss[..PAGE] }

  ghost predicate Held(ss: seq<Status>, fs: seq<QueueFailure>) { Hold(ss, fs).Ok? && Hold(ss, fs).value.Some? }

  /** Reading one page never holds a head the full list would release, and releases nothing the full list holds
      exactly when the head's first success is still on the page. */
  lemma PageHoldsExactly(ss: seq<Status>)
    requires FirstSuccess(ss).Ok? && FirstSuccess(Visible(ss)).Ok? && FirstSuccess(Visible(ss)).value.Some?
    ensures forall fs :: Held(Visible(ss), fs) ==> Held(ss, fs)
    ensures (forall fs :: Held(ss, fs) ==> Held(Visible(ss), fs)) <==> FirstSuccess(Visible(ss)) == FirstSuccess(ss)
  {
    var page := Visible(ss);
    FirstSuccessMeans(ss);
    FirstSuccessMeans(page);
    var k :| 0 <= k < |page| && Green(page[k]) && page[k].created == FirstSuccess(page).value;
    assert ss[k] == page[k];
    var b, v := FirstSuccess(ss).value.value, FirstSuccess(page).value.value;
    forall fs: seq<QueueFailure> ensures Held(ss, fs) <==> exists f: QueueFailure :: f in fs && f.created >= b
              ensures Held(page, fs) <==> exists f: QueueFailure :: f in fs && f.created >= v
    {
      HoldExactly(ss, fs);
      HoldExactly(page, fs);
    }
    var early := [QueueFailure(0, "", b, {})];
    assert early[0] in early;
    assert Held(ss, early);
    assert Held(page, early) <==> b >= v;
  }

  ghost predicate Released(ss: seq<Status>, f: QueueFailure) {
    GatesGreen(Visible(ss)) && Hold(ss, [f]) == Ok(Some(f)) && Hold(Visible(ss), [f]) == Ok(None)
  }

  /** A head whose own entry failed after its first success is released once enough later statuses bury that success. */
  lemma BuriedSuccessReleases()
    ensures exists ss, f :: Released(ss, f)
  {
    var again, other := Status(GATES_CONTEXT, "success", Some(50)), Status("lint", "success", Some(40));
    var filler := seq(99, _ => other);
    var ss, f := [again] + filler + [Status(GATES_CONTEXT, "success", Some(10))], QueueFailure(7, "p", 30, {"ci"});
    Skips(filler, []);
    Skips(filler, [ss[100]]);
    assert Visible(ss) == [again] + (filler + []) && Visible(ss)[1..] == filler + [];
    assert ss[1..] == filler + [ss[100]];
    assert [ss[100]][1..] == [] && [again][1..] == [];
    assert FirstSuccess(ss) == Ok(Some(10)) && FirstSuccess(Visible(ss)) == Ok(Some(50));
    assert Latest(Visible(ss), GATES_CONTEXT) == Some(again);
    HoldOne(ss, 10, f);
    HoldOne(Visible(ss), 50, f);
    assert Released(ss, f);
  }

  lemma HoldOne(ss: seq<Status>, bound: int, f: QueueFailure)
    requires FirstSuccess(ss) == Ok(Some(bound))
    ensures Hold(ss, [f]) == Ok(if f.created >= bound then Some(f) else None)
  {
    assert [f][..0] == [] && [f][1..] == [];
    assert ByTime([f]) == [f] && f in [f];
    FirstFromMeans([f], bound);
  }

  lemma {:induction false} Skips(filler: seq<Status>, rest: seq<Status>)
    requires forall i :: 0 <= i < |filler| ==> filler[i].context != GATES_CONTEXT
    ensures FirstSuccess(filler + rest) == FirstSuccess(rest)
      && Latest(filler + rest, GATES_CONTEXT) == Latest(rest, GATES_CONTEXT)
  {
    if filler == [] {
      assert filler + rest == rest;
    } else {
      Skips(filler[1..], rest);
      assert (filler + rest)[1..] == filler[1..] + rest;
    }
  }
}
