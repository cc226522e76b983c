/**
 * The version-update webhook handler. It keeps the ids of the events it has
 * seen in a set that only grows: a repeated id is answered at once and
 * nothing else happens; a new id is recorded before the file name is even
 * checked. The POST to the chat webhook is an input, `postSucceeds`.
 */
module VersionHandler {
  import opened Relay

  /** The fields of the version event the handler reads. */
  datatype VersionEvent = VersionEvent(
    eventId: string,
    fileName: string,
    handle: string,
    description: string,
    versionLabel: string)

  const DuplicateIgnored: Response := Response(200, Json(None, "Duplicate event ignored"))

  /** The posted message; the description is inserted as it is, with no word substitution. */
  function VersionMessage(ev: VersionEvent): (r: string)
    // the title names the file
    ensures "## " + ev.fileName + " 피그마가 버전업 했어요!\n" <= r
  {
    "## " + ev.fileName + " 피그마가 버전업 했어요!\n`updated by " + ev.handle +
    "`\n\n### 버전명: " + ev.versionLabel + "\n" + ev.description + "\n"
  }

  /** One request against the set of seen ids: the new set and what the request did. */
  function VersionStep(processed: set<string>, ev: VersionEvent, postSucceeds: bool): (r: (set<string>, Outcome))
    // every id received is recorded, rejected or not
    ensures r.0 == processed + {ev.eventId}
    // a request always answers, with 200 unless the file is foreign or the post fails
    ensures r.1.response.Some?
    ensures r.1.response.value.status == 200 <==>
      ev.eventId in processed || (ev.fileName == ProjectFileName && postSucceeds)
    // the version message is posted exactly for a new id on the project file
    ensures Posts(r.1.effects) <==> ev.eventId !in processed && ev.fileName == ProjectFileName
    ensures Posts(r.1.effects) ==> r.1.effects == [PostWebhook(VersionMessage(ev))]
  {
    if ev.eventId in processed then (processed, Outcome(Some(DuplicateIgnored), []))
    else if ev.fileName != ProjectFileName then (processed + {ev.eventId}, Outcome(Some(UnknownFileName), []))
    else
      var post := [PostWebhook(VersionMessage(ev))];
      assert post[0].PostWebhook?;
      (processed + {ev.eventId}, Outcome(Some(if postSucceeds then NotificationSent else SendFailed), post))
  }

  /** A request: the event and whether its webhook post would succeed. */
  datatype Request = Request(ev: VersionEvent, postSucceeds: bool)

  /** Requests handled one after another, from a given set of seen ids. */
  function RunRequests(processed: set<string>, reqs: seq<Request>): (set<string>, seq<Outcome>)
    decreases |reqs|
  {
    if reqs == [] then (processed, [])
    else
      var (next, o) := VersionStep(processed, reqs[0].ev, reqs[0].postSucceeds);
      var (last, os) := RunRequests(next, reqs[1..]);
      (last, [o] + os)
  }

  function EventIds(reqs: seq<Request>): set<string>
  {
    set i | 0 <= i < |reqs| :: reqs[i].ev.eventId
  }

  class VersionRelay {
    /** The ids of every version event received so far. */
    var processedEvents: set<string>

    constructor ()
      ensures processedEvents == {}
    {
      processedEvents := {};
    }

    method HandleVersionUpdate(ev: VersionEvent, postSucceeds: bool) returns (o: Outcome)
      modifies this
      ensures (processedEvents, o) == VersionStep(old(processedEvents), ev, postSucceeds)
      // the id is recorded whatever happens next
      ensures processedEvents == old(processedEvents) + {ev.eventId}
      ensures ev.eventId in old(processedEvents) ==> o == Outcome(Some(DuplicateIgnored), [])
      ensures ev.eventId !in old(processedEvents) && ev.fileName != ProjectFileName ==>
        o == Outcome(Some(UnknownFileName), [])
      ensures ev.eventId !in old(processedEvents) && ev.fileName == ProjectFileName ==>
        o.effects == [PostWebhook(VersionMessage(ev))] &&
        o.response == Some(if postSucceeds then NotificationSent else SendFailed)
    {
      if ev.eventId in processedEvents {
        return Outcome(Some(DuplicateIgnored), []);
      }
      processedEvents := processedEvents + {ev.eventId};

      if ev.fileName != ProjectFileName {
        return Outcome(Some(UnknownFileName), []);
      }

      var message := "## " + ev.fileName + " 피그마가 버전업 했어요!\n`updated by " + ev.handle +
        "`\n\n### 버전명: " + ev.versionLabel + "\n" + ev.description + "\n";
      if postSucceeds {
        o := Outcome(Some(NotificationSent), [PostWebhook(message)]);
      } else {
        o := Outcome(Some(SendFailed), [PostWebhook(message)]);
      }
    }
  }

  /** After a run, the seen set holds the ids it started with and every id received. */
  lemma {:induction false} RunRecordsEveryId(processed: set<string>, reqs: seq<Request>)
    ensures RunRequests(processed, reqs).0 == processed + EventIds(reqs)
    ensures |RunRequests(processed, reqs).1| == |reqs|
    decreases |reqs|
  {
    if reqs != [] {
      var next := VersionStep(processed, reqs[0].ev, reqs[0].postSucceeds).0;
      RunRecordsEveryId(next, reqs[1..]);
      assert EventIds(reqs) == {reqs[0].ev.eventId} + EventIds(reqs[1..]) by {
        forall x | x in EventIds(reqs) ensures x in {reqs[0].ev.eventId} + EventIds(reqs[1..]) {
          var i :| 0 <= i < |reqs| && reqs[i].ev.eventId == x;
          if i > 0 {
            assert reqs[1..][i - 1] == reqs[i];
          }
        }
        forall x | x in EventIds(reqs[1..]) ensures x in EventIds(reqs) {
          var i :| 0 <= i < |reqs[1..]| && reqs[1..][i].ev.eventId == x;
          assert reqs[i + 1] == reqs[1..][i];
        }
      }
    }
  }

  /**
   * Duplicate suppression: in a run of requests, a request posts only if its
   * id was neither seen before the run nor carried by an earlier request.
   */
  lemma {:induction false} PostedAtMostOncePerId(processed: set<string>, reqs: seq<Request>)
    ensures forall j :: 0 <= j < |RunRequests(processed, reqs).1| && Posts(RunRequests(processed, reqs).1[j].effects) ==>
      j < |reqs| && reqs[j].ev.eventId !in processed &&
      forall i :: 0 <= i < j ==> reqs[i].ev.eventId != reqs[j].ev.eventId
    decreases |reqs|
  {
    if reqs != [] {
      var (next, o) := VersionStep(processed, reqs[0].ev, reqs[0].postSucceeds);
      PostedAtMostOncePerId(next, reqs[1..]);
      RunRecordsEveryId(next, reqs[1..]);
      var outs := RunRequests(processed, reqs).1;
      assert outs == [o] + RunRequests(next, reqs[1..]).1;
      forall j | 0 <= j < |outs| && Posts(outs[j].effects)
        ensures j < |reqs| && reqs[j].ev.eventId !in processed
        ensures forall i :: 0 <= i < j ==> reqs[i].ev.eventId != reqs[j].ev.eventId
      {
        if j == 0 {
          assert outs[0] == o;
        } else {
          assert outs[j] == RunRequests(next, reqs[1..]).1[j - 1];
          assert reqs[1..][j - 1] == reqs[j];
          assert reqs[0].ev.eventId in next;
          forall i | 0 <= i < j ensures reqs[i].ev.eventId != reqs[j].ev.eventId {
            if i > 0 {
              assert reqs[1..][i - 1] == reqs[i];
            }
          }
        }
      }
    }
  }

  /**
   * The converse of duplicate suppression: a request for the project file
   * whose id is new to the run is relayed, and reports how the post went.
   */
  lemma {:induction false} FreshProjectEventPosts(processed: set<string>, reqs: seq<Request>, j: nat)
    requires j < |reqs|
    requires reqs[j].ev.fileName == ProjectFileName
    requires reqs[j].ev.eventId !in processed
    requires forall i :: 0 <= i < j ==> reqs[i].ev.eventId != reqs[j].ev.eventId
    ensures |RunRequests(processed, reqs).1| == |reqs|
    ensures RunRequests(processed, reqs).1[j] ==
      Outcome(Some(if reqs[j].postSucceeds then NotificationSent else SendFailed),
              [PostWebhook(VersionMessage(reqs[j].ev))])
    decreases |reqs|
  {
    RunRecordsEveryId(processed, reqs);
    var next := VersionStep(processed, reqs[0].ev, reqs[0].postSucceeds).0;
    if j > 0 {
      assert reqs[j].ev.eventId !in next;
      forall i | 0 <= i < j - 1 ensures reqs[1..][i].ev.eventId != reqs[1..][j - 1].ev.eventId {
        assert reqs[1..][i] == reqs[i + 1];
      }
      assert reqs[1..][j - 1] == reqs[j];
      FreshProjectEventPosts(next, reqs[1..], j - 1);
    }
  }

  /**
   * Unlike a comment, a version's description is relayed verbatim: the
   * message closes with the description on its own line.
   */
  lemma DescriptionVerbatim(ev: VersionEvent)
    ensures var m := VersionMessage(ev);
      |ev.description| + 1 <= |m| && m[|m| - |ev.description| - 1..] == ev.description + "\n"
  {
  }
}
