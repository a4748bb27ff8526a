/**
 Player parties: internal/parties/parties.go. The package's global map becomes a field of a registry;
 an operation on a party is called on the registry with the party it works on.
 */
module Parties {
  import opened Common

  class Party {
    var leaderUserId: int
    var userIds: seq<int>
    var inviteUserIds: seq<int>

    constructor (userId: int)
      ensures leaderUserId == userId && userIds == [userId] && inviteUserIds == []
    {
      leaderUserId, userIds, inviteUserIds := userId, [userId], [];
    }

    // As a member or invited
    predicate Lists(u: int)
      reads this
    {
      u in userIds || u in inviteUserIds
    }

    // Nobody is listed twice, and the leader is a member.
    ghost predicate Sound()
      reads this
    {
      && NoDuplicates(userIds) && NoDuplicates(inviteUserIds) && (forall u :: u in userIds ==> u !in inviteUserIds)
      && leaderUserId in userIds
    }

    // The loop of Invited
    method Invited(userId: int) returns (invited: bool)
      ensures invited <==> userId in inviteUserIds
    {
      for i := 0 to |inviteUserIds|
        invariant userId !in inviteUserIds[..i]
      {
        if inviteUserIds[i] == userId {
          return true;
        }
      }
      assert inviteUserIds[..|inviteUserIds|] == inviteUserIds;
      return false;
    }

    method CutInvite(userId: int)
      modifies this`inviteUserIds
      ensures inviteUserIds == Without(old(inviteUserIds), userId)
    {
      var idx := 0;
      while idx < |inviteUserIds|
        invariant 0 <= idx <= |inviteUserIds| && inviteUserIds == old(inviteUserIds)
        invariant forall k :: 0 <= k < idx ==> inviteUserIds[k] != userId
      {
        if inviteUserIds[idx] == userId {
          WithoutCut(inviteUserIds, userId, idx);
          inviteUserIds := inviteUserIds[..idx] + inviteUserIds[idx + 1..];
          return;
        }
        idx := idx + 1;
      }
      WithoutAbsent(inviteUserIds, userId);
    }

    method CutMember(userId: int)
      modifies this`userIds
      ensures userIds == Without(old(userIds), userId)
    {
      for i := 0 to |userIds|
        invariant userIds == old(userIds) && forall k :: 0 <= k < i ==> userIds[k] != userId
      {
        if userIds[i] == userId {
          WithoutCut(userIds, userId, i);
          userIds := userIds[..i] + userIds[i + 1..];
          return;
        }
      }
      WithoutAbsent(userIds, userId);
    }

    // The first member other than the one leaving takes over.
    method HandOver(userId: int)
      modifies this`leaderUserId
      ensures leaderUserId == NextLeader(userIds, userId, old(leaderUserId))
    {
      for i := 0 to |userIds|
        invariant leaderUserId == old(leaderUserId)
        invariant NextLeader(userIds, userId, leaderUserId) == NextLeader(userIds[i..], userId, leaderUserId)
      {
        if userIds[i] != userId {
          leaderUserId := userIds[i];
          return;
        }
        assert userIds[i..][1..] == userIds[i + 1..];
      }
    }
  }

  // The first of the users other than the one leaving; without one, the leader stays.
  function NextLeader(users: seq<int>, leaving: int, leader: int): int {
    if users == [] then leader else if users[0] != leaving then users[0] else NextLeader(users[1..], leaving, leader)
  }

  // Every member before the new leader is the one leaving, and without another member the leader stays.
  lemma {:induction false} NextLeaderIsFirst(users: seq<int>, leaving: int, leader: int, i: nat)
    requires i <= |users| && forall k :: 0 <= k < i ==> users[k] == leaving
    requires i < |users| ==> users[i] != leaving
    ensures NextLeader(users, leaving, leader) == if i < |users| then users[i] else leader
    decreases |users|
  {
    if i > 0 {
      NextLeaderIsFirst(users[1..], leaving, leader, i - 1);
    }
  }

  class Registry {
    var partyMap: map<int, Party>

    constructor ()
      ensures partyMap == map[] && Valid()
    {
      partyMap := map[];
    }

    ghost predicate Live(p: Party)
      reads this
    {
      exists u :: Maps(u, p)
    }

    // A user is mapped to a live party exactly when the party lists the user, as a member or invited;
    // lists hold nobody twice, and every live party's leader is one of its members.
    ghost predicate Valid()
      reads this, partyMap.Values
    {
      forall u :: u in partyMap ==> InStep(partyMap[u])
    }

    ghost predicate InStep(p: Party)
      reads this, p
    {
      p.Sound() && forall u :: Maps(u, p) <==> p.Lists(u)
    }

    ghost predicate Maps(u: int, p: Party)
      reads this
    {
      u in partyMap && partyMap[u] == p
    }

    lemma LiveInStep(p: Party)
      requires Valid() && Live(p)
      ensures InStep(p)
    {
    }

    // No user is listed by two parties.
    lemma PartiesDisjoint(p: Party, q: Party, u: int)
      requires Valid() && Live(p) && Live(q) && p.Lists(u) && q.Lists(u)
      ensures p == q
    {
      assert Maps(u, p) && Maps(u, q);
    }

    // A user in the map is listed by the party it is mapped to.
    lemma MappedIsListed(u: int)
      requires Valid() && u in partyMap
      ensures u in partyMap[u].userIds || u in partyMap[u].inviteUserIds
    {
      var p := partyMap[u];
      assert Maps(u, p);
      assert p.Lists(u);
    }

    method New(userId: int) returns (p: Party?)
      requires Valid()
      modifies this
      ensures Valid()
      ensures userId in old(partyMap) ==> p == null && partyMap == old(partyMap)
      ensures userId !in old(partyMap) ==>
        && p != null && fresh(p) && partyMap == old(partyMap)[userId := p]
        && p.leaderUserId == userId && p.userIds == [userId] && p.inviteUserIds == []
    {
      if userId in partyMap {
        return null;
      }
      var party := new Party(userId);
      partyMap := partyMap[userId := party];
      return party;
    }

    method InvitePlayer(p: Party, userId: int) returns (invited: bool)
      requires Valid() && Live(p)
      modifies this, p`inviteUserIds
      ensures Valid() && Live(p)
      ensures invited <==> userId !in old(partyMap)
      ensures if invited then partyMap == old(partyMap)[userId := p] && p.inviteUserIds == old(p.inviteUserIds) + [userId]
              else partyMap == old(partyMap) && p.inviteUserIds == old(p.inviteUserIds)
    {
      if userId in partyMap {
        return false;
      }
      LiveInStep(p);
      assert !Maps(userId, p);
      p.inviteUserIds := p.inviteUserIds + [userId];
      partyMap := partyMap[userId := p];
      forall u | u in partyMap
        ensures InStep(partyMap[u])
      {
        var q := partyMap[u];
        assert q != p ==> old(InStep(q));
        forall w
          ensures Maps(w, q) <==> q.Lists(w)
        {
          assert old(Maps(w, p)) <==> old(p.Lists(w));
          assert q != p ==> (old(Maps(w, q)) <==> old(q.Lists(w)));
        }
      }
      assert Maps(userId, p);
      return true;
    }

    method AcceptInvite(p: Party, userId: int) returns (accepted: bool)
      requires Valid() && Live(p)
      modifies p`userIds, p`inviteUserIds
      ensures Valid()
      ensures accepted <==> userId in old(p.inviteUserIds)
      ensures if accepted then p.userIds == old(p.userIds) + [userId] && p.inviteUserIds == Without(old(p.inviteUserIds), userId)
              else p.userIds == old(p.userIds) && p.inviteUserIds == old(p.inviteUserIds)
    {
      LiveInStep(p);
      var invited := p.Invited(userId);
      if !invited {
        return false;
      }
      p.userIds := p.userIds + [userId];
      WithoutElements(p.inviteUserIds, userId);
      p.CutInvite(userId);
      return true;
    }

    method DeclineInvite(p: Party, userId: int) returns (declined: bool)
      requires Valid() && Live(p)
      modifies this, p`inviteUserIds
      ensures Valid() && Live(p)
      ensures declined <==> userId in old(p.inviteUserIds)
      ensures if declined then partyMap == old(partyMap) - {userId} && p.inviteUserIds == Without(old(p.inviteUserIds), userId)
              else partyMap == old(partyMap) && p.inviteUserIds == old(p.inviteUserIds)
    {
      LiveInStep(p);
      var invited := p.Invited(userId);
      if !invited {
        return false;
      }
      WithoutElements(p.inviteUserIds, userId);
      p.CutInvite(userId);
      partyMap := partyMap - {userId};
      forall u | u in partyMap
        ensures InStep(partyMap[u])
      {
        var q := partyMap[u];
        assert q != p ==> old(InStep(q));
        forall w
          ensures Maps(w, q) <==> q.Lists(w)
        {
          assert old(Maps(w, p)) <==> old(p.Lists(w));
          assert q != p ==> (old(Maps(w, q)) <==> old(q.Lists(w)));
        }
      }
      assert Maps(p.leaderUserId, p);
      return true;
    }

    method DeleteAll(userIds: seq<int>)
      modifies this
      ensures partyMap == old(partyMap) - set u | u in userIds
    {
      for i := 0 to |userIds|
        invariant partyMap == old(partyMap) - set u | u in userIds[..i]
      {
        assert forall u :: u in userIds[..i + 1] <==> u in userIds[..i] || u == userIds[i];
        partyMap := partyMap - {userIds[i]};
      }
      assert userIds[..|userIds|] == userIds;
    }

    // Nobody is left in the party, and no other party is touched.
    method Disband(p: Party)
      requires Valid() && Live(p)
      modifies this
      ensures Valid() && !Live(p)
      ensures partyMap == old(partyMap) - set u | u in p.userIds + p.inviteUserIds
    {
      LiveInStep(p);
      assert forall u :: Maps(u, p) ==> p.Lists(u);
      DeleteAll(p.userIds);
      DeleteAll(p.inviteUserIds);
      assert forall w :: w in partyMap <==> w in old(partyMap) && !p.Lists(w);
      forall u | u in partyMap
        ensures InStep(partyMap[u])
      {
        var q := partyMap[u];
        assert q != p ==> old(InStep(q));
        forall w
          ensures Maps(w, q) <==> q.Lists(w)
        {
          assert old(Maps(w, p)) <==> old(p.Lists(w));
          assert q != p ==> (old(Maps(w, q)) <==> old(q.Lists(w)));
        }
      }
    }

    // When Leave keeps the registry sound: the source trusts its caller that the user is a member of p.
    // An outsider does no harm only if in no party at all, or alone in another one.
    ghost predicate MayLeave(p: Party, userId: int)
      reads this, partyMap.Values, p
    {
      || userId in p.userIds
      || userId !in partyMap
      || (partyMap[userId] != p && partyMap[userId].userIds == [userId] && partyMap[userId].inviteUserIds == [])
    }

    method Leave(p: Party, userId: int)
      requires Valid() && Live(p)
      modifies this, p`leaderUserId, p`userIds
      ensures Valid() <==> old(MayLeave(p, userId))
      ensures old(p.userIds) == [userId] ==>
        !Live(p) && partyMap == old(partyMap) - (set u | u in old(p.userIds + p.inviteUserIds)) && p.userIds == old(p.userIds)
      ensures old(p.userIds) != [userId] ==>
        && Live(p) && partyMap == old(partyMap) - {userId} && p.userIds == Without(old(p.userIds), userId)
        && (old(p.leaderUserId) != userId ==> p.leaderUserId == old(p.leaderUserId))
        && (old(p.leaderUserId) == userId ==>
              && |old(p.userIds)| > 1 && p.leaderUserId != userId
              && p.leaderUserId == old(p.userIds)[if old(p.userIds)[0] == userId then 1 else 0])
    {
      LiveInStep(p);
      if p.leaderUserId == userId {
        if |p.userIds| == 1 {
          Disband(p);
          return;
        }
        NextLeaderIsFirst(p.userIds, userId, userId, if p.userIds[0] == userId then 1 else 0);
        p.HandOver(userId);
      }
      ghost var leader, was := p.leaderUserId, partyMap;
      WithoutElements(p.userIds, userId);
      p.CutMember(userId);
      partyMap := partyMap - {userId};
      assert old(Maps(leader, p)) <==> old(p.Lists(leader));
      assert Maps(leader, p);
      if userId in old(p.userIds) {
        forall u | u in partyMap
          ensures InStep(partyMap[u])
        {
          var q := partyMap[u];
          assert q != p ==> old(InStep(q));
          forall w
            ensures Maps(w, q) <==> q.Lists(w)
          {
            assert old(Maps(w, p)) <==> old(p.Lists(w));
            assert q != p ==> (old(Maps(w, q)) <==> old(q.Lists(w)));
          }
        }
      } else if userId in was && was[userId] == p {
        assert old(Maps(userId, p)) && p.Lists(userId) && !Maps(userId, p);
        assert !InStep(partyMap[leader]);
      } else if userId in was {
        ghost var q := was[userId];
        assert old(InStep(q)) && old(Maps(userId, q)) && q.Lists(userId) && !Maps(userId, q);
        Others(q, userId);
        assert forall w :: old(Maps(w, q)) <==> q.Lists(w);
        if w :| q.Lists(w) && w != userId {
          assert old(Maps(w, q)) && Maps(w, q);
          assert !InStep(partyMap[w]);
        } else {
          forall u | u in partyMap
            ensures InStep(partyMap[u])
          {
            var r := partyMap[u];
            assert old(Maps(u, r)) && old(InStep(r)) && (old(Maps(u, q)) <==> q.Lists(u));
            forall w
              ensures Maps(w, r) <==> r.Lists(w)
            {
              assert old(Maps(w, r)) <==> old(r.Lists(w));
            }
          }
        }
      } else {
        assert partyMap == was;
      }
    }

    // Somebody else is listed with u exactly when u is not alone.
    lemma Others(q: Party, u: int)
      requires q.Sound() && q.Lists(u)
      ensures (q.userIds == [u] && q.inviteUserIds == []) <==> (forall w :: q.Lists(w) ==> w == u)
    {
      assert forall i :: 0 <= i < |q.userIds| ==> q.Lists(q.userIds[i]);
      assert |q.userIds| > 1 ==> q.userIds[0] != q.userIds[1];
      assert |q.inviteUserIds| > 0 ==> q.Lists(q.inviteUserIds[0]) && q.inviteUserIds[0] != q.leaderUserId;
      assert q.Lists(q.leaderUserId);
      if forall w :: q.Lists(w) ==> w == u {
        assert q.userIds == [u];
      }
    }
  }

  // Somebody invited, who leaves without having joined, stays listed but is no longer mapped.
  method InvitedLeaves() returns (registry: Registry)
    ensures !registry.Valid()
  {
    registry := new Registry();
    var p := registry.New(1);
    assert registry.Maps(1, p);
    var _ := registry.InvitePlayer(p, 2);
    registry.Leave(p, 2);
  }
}
