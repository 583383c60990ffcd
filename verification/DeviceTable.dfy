/** The asynchronous login and logout on the actual list of connected devices, proved to do what
    the state machine's steps do. */
module DeviceTable {
  import opened Common
  import opened UtilsList
  import opened SharedLists
  import opened Lifecycle

  const EDGE_OK := 0
  const EDGE_ERR := 1

  class SubdevClient {
    const deviceSn: string
    var natsOnline: bool

    /** `edge_subdev_construct`. */
    constructor (deviceSn: string)
      ensures this.deviceSn == deviceSn && !natsOnline
    {
      this.deviceSn := deviceSn;
      natsOnline := false;
    }
  }

  function SerialMatch(): Matcher<SubdevClient> {
    Some((a: SubdevClient, b: SubdevClient) => a.deviceSn <= b.deviceSn)
  }

  /** `objs[c]` is the client `c`, whether it is in the list or not. */
  ghost predicate Objects(objs: seq<SubdevClient>, s: State)
    reads objs
  {
    && InRange(s) && |objs| == |s.clients| && Distinct(objs)
    && forall c :: 0 <= c < |objs| ==> objs[c].deviceSn == s.clients[c].sn && objs[c].natsOnline == s.clients[c].online
  }

  /** The list holds the clients of `s.listed`. */
  ghost predicate Represents(list: List<SubdevClient>, objs: seq<SubdevClient>, s: State)
    reads list, list.nodes, objs
  {
    && list.Valid() && list.matcher == SerialMatch() && list.frees
    && Objects(objs, s) && Entries(list.nodes, objs, s.listed)
  }

  ghost predicate Entries(nodes: seq<ListNode<SubdevClient>>, objs: seq<SubdevClient>, listed: seq<nat>) {
    && |nodes| == |listed|
    && forall i :: 0 <= i < |listed| ==> listed[i] < |objs| && nodes[i].val == objs[listed[i]]
  }

  /** The list is searched by serial as the state machine searches its serials. */
  lemma {:induction false} FirstClient(list: List<SubdevClient>, objs: seq<SubdevClient>, s: State, m: SubdevClient)
    requires Represents(list, objs, s)
    ensures FirstIndex(Vals(list.nodes), list.matcher, m) == LookUp(s, m.deviceSn)
  {
    var vals, i, j := Vals(list.nodes), FirstIndex(Vals(list.nodes), list.matcher, m), LookUp(s, m.deviceSn);
    hide FirstIndex, LookUp;
    assert forall k :: 0 <= k < |vals| ==>
      (MatchWith(list.matcher, m, vals[k]) <==> m.deviceSn <= s.clients[s.listed[k]].sn);
  }

  /** `edge_subdev_construct` of a client. */
  method Construct(list: List<SubdevClient>, deviceSn: string, ghost objs: seq<SubdevClient>, ghost s: State)
    returns (client: SubdevClient)
    requires Represents(list, objs, s)
    ensures fresh(client) && Represents(list, objs + [client], Apply(s, Lifecycle.Construct(deviceSn)))
  {
    client := new SubdevClient(deviceSn);
  }

  /** `edge_subdev_login_async`, where `code` is the status of the publish. */
  method LoginAsync(list: List<SubdevClient>, client: SubdevClient, code: int,
                    ghost objs: seq<SubdevClient>, ghost s: State, ghost c: nat)
    returns (status: int)
    requires Represents(list, objs, s) && Enabled(s, Login(c, code)) && objs[c] == client
    modifies client, list`head, list`tail, list`len, list`nodes, list.nodes
    ensures Represents(list, objs, Apply(s, Login(c, code))) && status == code
  {
    status := code;
    if status != EDGE_OK {
      return;
    }
    client.natsOnline := true;
    var added := AddToList(list, client);
    assert list.nodes[|list.nodes| - 1].val == Vals(list.nodes)[|list.nodes| - 1] == client;
    status := EDGE_OK;
  }

  /** `edge_subdev_logout_async`; `freed` are the clients freed with their nodes. */
  method LogoutAsync(list: List<SubdevClient>, client: SubdevClient, code: int,
                     ghost objs: seq<SubdevClient>, ghost s: State, ghost c: nat)
    returns (status: int, freed: seq<SubdevClient>)
    requires Represents(list, objs, s) && Enabled(s, Logout(c, code)) && objs[c] == client
    modifies client, list`head, list`tail, list`len, list`nodes, list.nodes
    ensures Represents(list, objs, Apply(s, Logout(c, code)))
    ensures FreesSame(freed, objs, s, Apply(s, Logout(c, code)))
    ensures !s.clients[c].online ==> status == EDGE_OK && freed == []
    ensures s.clients[c].online && code != 0 ==> status == code && freed == []
    ensures s.clients[c].online && code == 0 ==>
              var i := LookUp(s, s.clients[c].sn);
              if i < |s.listed| then status == EDGE_OK == 0 && freed == [objs[s.listed[i]]]
              else status == EDGE_ERR == 1 && freed == []
  {
    hide Apply, LookUp, Entries;
    if !s.clients[c].online || code != 0 {
      LogoutNothing(s, c, code);
    }
    status, freed := EDGE_OK, [];
    if !client.natsOnline {
      return;
    }
    status := code;
    if status != EDGE_OK {
      return;
    }
    status, freed := LogoutOnline(list, client, objs, s, c);
    FreedFirst(objs, s, c, freed);
  }

  lemma {:induction false} LogoutNothing(s: State, c: nat, code: int)
    requires InRange(s) && Enabled(s, Logout(c, code)) && (!s.clients[c].online || code != 0)
    ensures Apply(s, Logout(c, code)) == s
  {
  }

  /** The logout of an online client whose message has been published. */
  method LogoutOnline(list: List<SubdevClient>, client: SubdevClient,
                      ghost objs: seq<SubdevClient>, ghost s: State, ghost c: nat)
    returns (status: int, freed: seq<SubdevClient>)
    requires Represents(list, objs, s) && Enabled(s, Logout(c, 0)) && objs[c] == client && s.clients[c].online
    modifies client, list`head, list`tail, list`len, list`nodes, list.nodes
    ensures Represents(list, objs, Apply(s, Logout(c, 0)))
    ensures var i := LookUp(s, s.clients[c].sn);
            if i < |s.listed| then status == EDGE_OK && freed == [objs[s.listed[i]]]
            else status == EDGE_ERR && freed == []
  {
    hide Apply, LookUp, LookedUpTo, Entries, Linked;
    LogoutState(s, c);
    client.natsOnline := false;
    ghost var offline := s.(clients := s.clients[c := s.clients[c].(online := false)]);
    assert Objects(objs, offline);
    hide Objects;
    var removed: NatsStatus;
    removed, freed := RemoveClient(list, client, objs, offline);
    SameView(list, objs, offline.(listed := LookedUpTo(offline, client.deviceSn)), Apply(s, Logout(c, 0)));
    hide Represents;
    status := if removed == NATS_OK then EDGE_OK else EDGE_ERR;
  }

  /** The clients that a step of the state machine frees. */
  ghost predicate NewlyFreed(s: State, t: State, d: nat) {
    d < |s.clients| && d < |t.clients| && t.clients[d].freed && !s.clients[d].freed
  }

  /** The clients freed by the code are those newly freed in the state machine. */
  ghost predicate FreesSame(freed: seq<SubdevClient>, objs: seq<SubdevClient>, s: State, t: State) {
    && |objs| == |s.clients|
    && (forall d: nat :: NewlyFreed(s, t, d) ==> freed == [objs[d]])
    && (forall x :: x in freed ==>
          exists d: nat :: d < |s.clients| && d < |t.clients| && objs[d] == x && t.clients[d].freed)
  }

  lemma {:induction false} FreedFirst(objs: seq<SubdevClient>, s: State, c: nat, freed: seq<SubdevClient>)
    requires InRange(s) && |objs| == |s.clients| && Enabled(s, Logout(c, 0)) && s.clients[c].online
    requires var i := LookUp(s, s.clients[c].sn); freed == if i < |s.listed| then [objs[s.listed[i]]] else []
    ensures FreesSame(freed, objs, s, Apply(s, Logout(c, 0)))
  {
    hide LookUp, Apply, FoundFirst;
    var t := Apply(s, Logout(c, 0));
    var sn := s.clients[c].sn;
    LogoutFreesIff(s, c, c);
    forall d: nat | d < |s.clients|
      ensures t.clients[d].freed <==> s.clients[d].freed || FoundFirst(s, sn, d)
      ensures FoundFirst(s, sn, d) <==> LookUp(s, sn) < |s.listed| && s.listed[LookUp(s, sn)] == d
    {
      LogoutFreesIff(s, c, d);
      LookUpIsFoundFirst(s, sn, d);
    }
  }

  /** The nodes left when the one that a serial is looked up to is removed. */
  ghost function LookedUpTo(s: State, sn: string): seq<nat>
    requires InRange(s)
  {
    var i := LookUp(s, sn);
    if i < |s.listed| then Without(s.listed, i) else s.listed
  }

  /** The list does not show which clients are freed. */
  lemma {:induction false} SameView(list: List<SubdevClient>, objs: seq<SubdevClient>, s: State, t: State)
    requires Represents(list, objs, s)
    requires InRange(t) && t.listed == s.listed && |t.clients| == |s.clients|
    requires forall d :: 0 <= d < |s.clients| ==> t.clients[d].sn == s.clients[d].sn
    requires forall d :: 0 <= d < |s.clients| ==> t.clients[d].online == s.clients[d].online
    ensures Represents(list, objs, t)
  {
  }

  /** Find-then-remove on the list of devices. */
  method RemoveClient(list: List<SubdevClient>, client: SubdevClient, ghost objs: seq<SubdevClient>, ghost s: State)
    returns (status: NatsStatus, freed: seq<SubdevClient>)
    requires Represents(list, objs, s)
    modifies list`head, list`tail, list`len, list`nodes, list.nodes
    ensures InRange(s.(listed := LookedUpTo(s, client.deviceSn)))
    ensures Represents(list, objs, s.(listed := LookedUpTo(s, client.deviceSn)))
    ensures var i := LookUp(s, client.deviceSn);
            if i < |s.listed| then status == NATS_OK && freed == [objs[s.listed[i]]]
            else status == NATS_ERR && freed == []
  {
    hide Objects, Entries, LookUp, RemoveFirst, FirstIndex, MatchWith, Without, Linked, Distinct, At;
    FirstClient(list, objs, s, client);
    RemovedState(list.nodes, objs, s, client.deviceSn);
    status, freed := RemoveFromList(list, client);
  }

  /** The removal of the node that a serial is looked up to, seen by the list. */
  lemma {:induction false} RemovedState(nodes: seq<ListNode<SubdevClient>>, objs: seq<SubdevClient>, s: State, sn: string)
    requires Objects(objs, s) && Entries(nodes, objs, s.listed)
    ensures InRange(s.(listed := LookedUpTo(s, sn))) && |nodes| == |s.listed|
    ensures var t := s.(listed := LookedUpTo(s, sn));
            var i := LookUp(s, sn);
            && Objects(objs, t) && Entries(if i < |nodes| then Without(nodes, i) else nodes, objs, t.listed)
            && (i < |nodes| ==> Vals(nodes)[i] == objs[s.listed[i]])
  {
    hide LookUp;
  }

  /** The state machine's logout, without the fate of the freed client. */
  lemma {:induction false} LogoutState(s: State, c: nat)
    requires InRange(s) && Enabled(s, Logout(c, 0)) && s.clients[c].online
    ensures var t := Apply(s, Logout(c, 0));
            var offline := s.(clients := s.clients[c := s.clients[c].(online := false)]);
            && InRange(t) && InRange(offline) && |t.clients| == |s.clients|
            && (forall d :: 0 <= d < |s.clients| ==> t.clients[d].sn == offline.clients[d].sn)
            && (forall d :: 0 <= d < |s.clients| ==> t.clients[d].online == offline.clients[d].online)
            && LookUp(offline, s.clients[c].sn) == LookUp(s, s.clients[c].sn)
            && t.listed == LookedUpTo(offline, s.clients[c].sn)
  {
    var offline := s.(clients := s.clients[c := s.clients[c].(online := false)]);
    assert Serials(offline) == Serials(s);
    assert LookUp(offline, s.clients[c].sn) == LookUp(s, s.clients[c].sn);
    hide LookUp;
  }

  /** The look-up of `_on_local_message`: the client that is handed a message for `deviceSn`. */
  method ClientOfMessage(list: List<SubdevClient>, deviceSn: string, ghost objs: seq<SubdevClient>, ghost s: State)
    returns (found: bool, client: SubdevClient)
    requires Represents(list, objs, s)
    ensures found <==> LookUp(s, deviceSn) < |s.listed|
    ensures found ==> client == objs[s.listed[LookUp(s, deviceSn)]]
    ensures Inv(s) ==> forall c :: 0 <= c < |objs| && s.clients[c].online && s.clients[c].sn == deviceSn ==>
              found && client == objs[c]
  {
    var tmp := new SubdevClient(deviceSn);
    var node := FindInList(list, tmp);
    FirstClient(list, objs, s, tmp);
    found := node != null;
    client := if node != null then node.val else tmp;
    hide LookUp, Inv;
    if Inv(s) {
      forall c | 0 <= c < |objs| && s.clients[c].online && s.clients[c].sn == deviceSn
        ensures found && client == objs[c]
      {
        LookUpFindsOwn(s, c);
      }
    }
  }
}
