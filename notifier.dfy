/** The alert fan-out run after a scrim is posted (commands/scrim.js,
    notifyInterestedUsers): direct messages to at most fifty opted-in users,
    never to the scrim's creator, each delivery failing on its own. */
module Notifier {
  import opened Entities

  /** `maxNotifications`. */
  const MaxNotifications: nat := 50

  /** `usersWithAlerts.slice(0, maxNotifications)`. */
  function Capped(optedIn: seq<UserId>): (r: seq<UserId>)
    ensures |r| == if |optedIn| < MaxNotifications then |optedIn| else MaxNotifications
    ensures r == optedIn[..|r|]
  {
    if |optedIn| <= MaxNotifications then optedIn else optedIn[..MaxNotifications]
  }

  /** The ids in order, leaving out one user. */
  function Skipping(ids: seq<UserId>, who: UserId): (r: seq<UserId>)
    decreases |ids|
  {
    if |ids| == 0 then []
    else Skipping(ids[..|ids| - 1], who) + (if ids[|ids| - 1] == who then [] else [ids[|ids| - 1]])
  }

  /** The ids in order whose direct message goes through. */
  function Reached(ids: seq<UserId>, reachable: set<UserId>): (r: seq<UserId>)
    decreases |ids|
  {
    if |ids| == 0 then []
    else Reached(ids[..|ids| - 1], reachable) + (if ids[|ids| - 1] in reachable then [ids[|ids| - 1]] else [])
  }

  /** Who gets a delivery attempt. */
  function Recipients(creator: UserId, optedIn: seq<UserId>): seq<UserId> {
    Skipping(Capped(optedIn), creator)
  }

  lemma {:induction false} SkippingMembers(ids: seq<UserId>, who: UserId)
    ensures |Skipping(ids, who)| <= |ids|
    ensures forall u :: u in Skipping(ids, who) <==> u in ids && u != who
    decreases |ids|
  {
    if |ids| > 0 {
      var init := ids[..|ids| - 1];
      SkippingMembers(init, who);
      assert ids == init + [ids[|ids| - 1]];
    }
  }

  lemma {:induction false} ReachedMembers(ids: seq<UserId>, reachable: set<UserId>)
    ensures |Reached(ids, reachable)| <= |ids|
    ensures forall u :: u in Reached(ids, reachable) <==> u in ids && u in reachable
    decreases |ids|
  {
    if |ids| > 0 {
      var init := ids[..|ids| - 1];
      ReachedMembers(init, reachable);
      assert ids == init + [ids[|ids| - 1]];
    }
  }

  /** At most fifty attempts; the creator is never messaged; a user is messaged
      exactly when they are among the first fifty opted-in ids and are not the
      creator. */
  lemma RecipientsSpec(creator: UserId, optedIn: seq<UserId>)
    ensures |Recipients(creator, optedIn)| <= MaxNotifications
    ensures creator !in Recipients(creator, optedIn)
    ensures forall u :: u in Recipients(creator, optedIn) <==> u in Capped(optedIn) && u != creator
  {
    SkippingMembers(Capped(optedIn), creator);
  }

  /** An opted-in user past the fiftieth place gets nothing, unless they also
      occur earlier in the list. */
  lemma PastCapIsSkipped(creator: UserId, optedIn: seq<UserId>, u: UserId)
    requires u !in optedIn[..if |optedIn| < MaxNotifications then |optedIn| else MaxNotifications]
    ensures u !in Recipients(creator, optedIn)
  {
    RecipientsSpec(creator, optedIn);
  }

  /** The result of one fan-out: who was tried and whose message arrived. */
  datatype Fanout = Fanout(attempted: seq<UserId>, delivered: seq<UserId>)

  /** The fan-out loop. `reachable` stands for the users whose fetch and direct
      message succeed; a failure is caught per user and the loop goes on.
      Nothing is stored. */
  method NotifyInterestedUsers(creator: UserId, optedIn: seq<UserId>, reachable: set<UserId>)
    returns (r: Fanout)
    ensures r.attempted == Recipients(creator, optedIn)
    ensures r.delivered == Reached(r.attempted, reachable)
    ensures forall u :: u in r.delivered <==> u in r.attempted && u in reachable
  {
    r := Fanout([], []);
    if |optedIn| == 0 {
      ReachedMembers([], reachable);
      return;
    }
    var usersToNotify := Capped(optedIn);
    var i := 0;
    while i < |usersToNotify|
      invariant 0 <= i <= |usersToNotify|
      invariant r.attempted == Skipping(usersToNotify[..i], creator)
      invariant r.delivered == Reached(r.attempted, reachable)
    {
      var user := usersToNotify[i];
      assert usersToNotify[..i + 1] == usersToNotify[..i] + [user];
      assert (usersToNotify[..i + 1])[..i] == usersToNotify[..i];
      i := i + 1;
      if user == creator {
        continue;
      }
      var before := r.attempted;
      r := r.(attempted := r.attempted + [user]);
      assert r.attempted[..|r.attempted| - 1] == before;
      if user in reachable {
        r := r.(delivered := r.delivered + [user]);
      }
    }
    assert usersToNotify[..i] == usersToNotify;
    ReachedMembers(r.attempted, reachable);
  }
}
