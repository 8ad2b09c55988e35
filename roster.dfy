/** The roster of logged-in sessions (FTPLoggedUser): a set of sessions with
    join and leave, each of which broadcasts a notice to the members. The
    notification sockets are replaced by an outbox of notices. */
module LoggedUsers {

  /** A session, as the roster's `std::set<session_ptr>` identifies it. */
  type SessionId = nat

  /** A message handed to a member's `deliver`. */
  datatype Notice = Notice(to: SessionId, text: string)

  /** `order` lists every element of `s` exactly once. */
  ghost predicate Enumerates(order: seq<SessionId>, s: set<SessionId>) {
    multiset(order) == multiset(s)
  }

  function Notices(order: seq<SessionId>, text: string): (r: seq<Notice>)
    ensures |r| == |order| && forall i :: 0 <= i < |order| ==> r[i] == Notice(order[i], text)
  {
    seq(|order|, i requires 0 <= i < |order| => Notice(order[i], text))
  }

  lemma NoticesStep(order: seq<SessionId>, m: SessionId, text: string)
    ensures Notices(order + [m], text) == Notices(order, text) + [Notice(m, text)]
  {
    assert forall i :: 0 <= i < |order| ==> (order + [m])[i] == order[i];
  }

  lemma EnumeratesStep(order: seq<SessionId>, done: set<SessionId>, m: SessionId)
    requires Enumerates(order, done) && m !in done
    ensures Enumerates(order + [m], done + {m})
  {
    assert multiset(done + {m}) == multiset(done) + multiset{m};
  }

  class Roster {
    var members: set<SessionId>
    var outbox: seq<Notice>

    constructor ()
      ensures members == {} && outbox == []
    {
      members := {};
      outbox := [];
    }

    /** `join`: inserts the session (a set, so joining twice keeps one entry)
        and then tells every member, the newcomer included. */
    method Join(id: SessionId, name: string)
      modifies this`members, this`outbox
      ensures members == old(members) + {id}
      ensures exists order :: (Enumerates(order, members) &&
        outbox == old(outbox) + Notices(order, name + " logged in"))
    {
      members := members + {id};
      SendToAll(name + " logged in");
    }

    /** `leave`: erases the session first, so only the remaining members
        are told. */
    method Leave(id: SessionId, name: string)
      modifies this`members, this`outbox
      ensures members == old(members) - {id}
      ensures exists order :: (Enumerates(order, members) &&
        outbox == old(outbox) + Notices(order, name + " logged out"))
    {
      members := members - {id};
      SendToAll(name + " logged out");
    }

    /** `sendMsgToAllClient`: one notice per member, in the set's iteration
        order. */
    method SendToAll(text: string)
      modifies this`outbox
      ensures exists order :: (Enumerates(order, members) &&
        outbox == old(outbox) + Notices(order, text))
    {
      var rest := members;
      ghost var done: set<SessionId> := {};
      ghost var order: seq<SessionId> := [];
      while rest != {}
        invariant rest <= members && done == members - rest
        invariant Enumerates(order, done)
        invariant outbox == old(outbox) + Notices(order, text)
        decreases rest
      {
        var m :| m in rest;
        EnumeratesStep(order, done, m);
        NoticesStep(order, m, text);
        outbox := outbox + [Notice(m, text)];
        order := order + [m];
        done := done + {m};
        rest := rest - {m};
      }
      assert done == members;
    }

    /** `get_logged_user`: the current user name of every member, one per
        member. */
    method LoggedUserNames(nameOf: SessionId -> string) returns (names: seq<string>)
      ensures exists order :: (Enumerates(order, members) &&
        |names| == |order| && forall i :: 0 <= i < |order| ==> names[i] == nameOf(order[i]))
    {
      var rest := members;
      ghost var done: set<SessionId> := {};
      ghost var order: seq<SessionId> := [];
      names := [];
      while rest != {}
        invariant rest <= members && done == members - rest
        invariant Enumerates(order, done)
        invariant |names| == |order| && forall i :: 0 <= i < |order| ==> names[i] == nameOf(order[i])
        decreases rest
      {
        var m :| m in rest;
        EnumeratesStep(order, done, m);
        names := names + [nameOf(m)];
        order := order + [m];
        done := done + {m};
        rest := rest - {m};
      }
      assert done == members;
    }
  }
}
