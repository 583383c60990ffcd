/** The status report: a walk over the connected devices, from the tail, that joins a string for
    each device into a message buffer. */
module StatusSync {
  import opened Common
  import opened UtilsList
  import opened CStrings

  const INFO_SIZE := 100

  datatype Device = Device(productSn: string, deviceSn: string)

  /** What `DEVICE_LIST_INFO` makes of a device. */
  function DeviceText(d: Device): (s: string)
    ensures |s| > 0
    ensures NUL !in d.productSn && NUL !in d.deviceSn ==> NUL !in s
  {
    "{\"productSN\": \"" + d.productSn + "\",\"deviceSN\": \"" + d.deviceSn + "\"}"
  }

  /** `snprintf` into a buffer of `INFO_SIZE` characters: the text is cut to leave room for the NUL. */
  function DeviceInfo(d: Device): (s: string)
    ensures 0 < |s| <= INFO_SIZE - 1
    ensures NUL !in d.productSn && NUL !in d.deviceSn ==> NUL !in s
  {
    var full := DeviceText(d);
    if |full| <= INFO_SIZE - 1 then full else full[..INFO_SIZE - 1]
  }

  /** The string of a device is its text, or the first 99 characters of it. */
  lemma {:induction false} InfoIsCut(d: Device)
    ensures DeviceInfo(d) == if |DeviceText(d)| <= 99 then DeviceText(d) else DeviceText(d)[..99]
  {
    hide DeviceText;
  }

  function Join(ss: seq<string>): string {
    if ss == [] then []
    else
      var m := |ss| - 1;
      if m == 0 then ss[0] else Join(ss[..m]) + "," + ss[m]
  }

  /** The strings of the nodes, in order; a node without a value has none. */
  function Infos(vals: seq<Option<Device>>): (ss: seq<string>)
    ensures |ss| <= |vals|
    ensures forall i :: 0 <= i < |ss| ==> 0 < |ss[i]| <= INFO_SIZE - 1
    ensures (forall v :: v in vals ==> v.Some?) ==> |ss| == |vals|
  {
    if vals == [] then []
    else
      var m := |vals| - 1;
      Infos(vals[..m]) + if vals[m].Some? then [DeviceInfo(vals[m].value)] else []
  }

  /** The report for the values of the list, in list order. */
  function Report(vals: seq<Option<Device>>): string {
    Join(Infos(Reversed(vals)))
  }

  ghost predicate CleanDevice(v: Option<Device>) {
    v.Some? ==> NUL !in v.value.productSn && NUL !in v.value.deviceSn
  }

  lemma {:induction false} JoinSnoc(ss: seq<string>, s: string)
    ensures Join(ss + [s]) == if ss == [] then s else Join(ss) + "," + s
  {
    assert (ss + [s])[..|ss|] == ss;
  }

  lemma {:induction false} JoinEmptyIff(ss: seq<string>)
    requires forall i :: 0 <= i < |ss| ==> 0 < |ss[i]|
    ensures Join(ss) == [] <==> ss == []
  {
    if ss != [] {
      var m := |ss| - 1;
      assert ss == ss[..m] + [ss[m]];
      JoinSnoc(ss[..m], ss[m]);
    }
  }

  lemma {:induction false} InfosSnoc(vals: seq<Option<Device>>, v: Option<Device>)
    ensures Infos(vals + [v]) == Infos(vals) + if v.Some? then [DeviceInfo(v.value)] else []
  {
    assert (vals + [v])[..|vals|] == vals;
  }

  /** The text of the report after the nodes `vals`, one node further. */
  lemma {:induction false} ReportStep(vals: seq<Option<Device>>, v: Option<Device>)
    ensures var was := Join(Infos(vals));
            Join(Infos(vals + [v])) ==
              if v == None then was
              else if was == [] then DeviceInfo(v.value)
              else was + "," + DeviceInfo(v.value)
  {
    hide Join, Infos, DeviceInfo;
    InfosSnoc(vals, v);
    JoinEmptyIff(Infos(vals));
    if v.Some? {
      JoinSnoc(Infos(vals), DeviceInfo(v.value));
    } else {
      assert Infos(vals) + [] == Infos(vals);
    }
  }

  /** The report only grows along the walk. */
  lemma {:induction false} ReportGrows(vals: seq<Option<Device>>, k: nat)
    requires k <= |vals|
    ensures |Join(Infos(vals[..k]))| <= |Join(Infos(vals))|
    decreases |vals| - k
  {
    hide Join, Infos, DeviceInfo;
    if k < |vals| {
      assert vals[..k + 1] == vals[..k] + [vals[k]];
      ReportStep(vals[..k], vals[k]);
      ReportGrows(vals, k + 1);
    } else {
      assert vals[..k] == vals;
    }
  }

  /** `strncat(dst, src, strlen(src))`. */
  method StrCat(dst: array<char>, s: string)
    requires NUL in dst[..] && NUL !in s
    requires |CText(dst[..])| + |s| < dst.Length
    modifies dst
    ensures NUL in dst[..] && CText(dst[..]) == old(CText(dst[..])) + s
  {
    hide CText;
    ghost var t := CText(dst[..]);
    var at := |CText(dst[..])|;
    var i := 0;
    while i < |s|
      invariant 0 <= i <= |s| && dst[..at + i] == t + s[..i]
    {
      dst[at + i] := s[i];
      i := i + 1;
    }
    dst[at + |s|] := NUL;
    assert dst[..][at + |s|] == NUL;
    assert dst[..at + |s|] == t + s;
    CTextIs(dst[..], t + s);
  }

  /** Adding one device to the message. */
  method AppendDevice(msg: array<char>, d: Device)
    requires NUL in msg[..] && NUL !in DeviceInfo(d)
    requires || |CText(msg[..])| + 1 + |DeviceInfo(d)| < msg.Length
             || (CText(msg[..]) == [] && |DeviceInfo(d)| < msg.Length)
    modifies msg
    ensures NUL in msg[..]
    ensures CText(msg[..]) == if old(CText(msg[..])) == [] then DeviceInfo(d)
                              else old(CText(msg[..])) + "," + DeviceInfo(d)
  {
    hide CText, DeviceInfo;
    if |CText(msg[..])| == 0 {
      StrCat(msg, DeviceInfo(d));
    } else {
      StrCat(msg, ",");
      StrCat(msg, DeviceInfo(d));
    }
  }

  /** What the walk has written after `k` nodes. */
  function Written(vals: seq<Option<Device>>, k: nat): string
    requires k <= |vals|
  {
    Join(Infos(vals[..k]))
  }

  lemma {:induction false} WrittenStep(vals: seq<Option<Device>>, k: nat)
    requires k < |vals|
    ensures Written(vals, k + 1) ==
              if vals[k] == None then Written(vals, k)
              else if Written(vals, k) == [] then DeviceInfo(vals[k].value)
              else Written(vals, k) + "," + DeviceInfo(vals[k].value)
    ensures |Written(vals, k + 1)| <= |Written(vals, |vals|)|
  {
    hide Join, Infos, DeviceInfo;
    assert vals[..k + 1] == vals[..k] + [vals[k]];
    assert vals[..|vals|] == vals;
    ReportStep(vals[..k], vals[k]);
    ReportGrows(vals, k + 1);
  }

  lemma {:induction false} WrittenEnds(nodes: seq<ListNode<Option<Device>>>)
    ensures var vals := Vals(Reversed(nodes));
            |vals| == |nodes| && Written(vals, 0) == [] && Written(vals, |nodes|) == Report(Vals(nodes))
    ensures nodes == [] ==> Report(Vals(nodes)) == []
  {
    var vals := Vals(Reversed(nodes));
    ReversedVals(nodes);
    assert vals[..0] == [] && vals[..|vals|] == vals;
  }

  lemma {:induction false} NothingReported()
    ensures Join(Infos([])) == [] && Report([]) == []
  {
  }

  lemma {:induction false} ReversedVals(nodes: seq<ListNode<Option<Device>>>)
    ensures Vals(Reversed(nodes)) == Reversed(Vals(nodes))
  {
  }

  ghost predicate CleanList(nodes: seq<ListNode<Option<Device>>>) {
    forall i :: 0 <= i < |nodes| ==> CleanDevice(nodes[i].val)
  }

  lemma {:induction false} WalkedNode(nodes: seq<ListNode<Option<Device>>>, k: nat, node: ListNode<Option<Device>>)
    requires CleanList(nodes) && node == At(Order(nodes, LIST_TAIL), k)
    ensures k < |nodes| && node.val == Vals(Reversed(nodes))[k] && CleanDevice(node.val)
  {
  }

  /** The loop of the walk, from the tail of `nodes`. */
  method WalkDevices(it: ListIterator<Option<Device>>, msg: array<char>, ghost nodes: seq<ListNode<Option<Device>>>)
    requires Linked(nodes) && CleanList(nodes) && it.direction == LIST_TAIL && it.Before(nodes, 0)
    requires msg.Length == NATS_MSG_MAX_LEN && NUL in msg[..] && CText(msg[..]) == []
    requires |Report(Vals(nodes))| < NATS_MSG_MAX_LEN
    modifies it, msg
    ensures NUL in msg[..] && CText(msg[..]) == Report(Vals(nodes))
  {
    hide *;
    ghost var vals := Vals(Reversed(nodes));
    WrittenEnds(nodes);
    ghost var k := 0;
    while true
      invariant k <= |nodes| && it.Before(nodes, k)
      invariant NUL in msg[..] && CText(msg[..]) == Written(vals, k)
      decreases |nodes| - k
    {
      var node := it.Next(nodes, k);
      if node == null {
        break;
      }
      WalkedNode(nodes, k, node);
      WrittenStep(vals, k);
      k := k + 1;
      if node.val.None? {
        continue;
      }
      CleanInfo(node.val.value);
      AppendDevice(msg, node.val.value);
    }
  }

  /** The message that `_handle_status_sync` builds from the list of connected devices. */
  method BuildReport(list: List<Option<Device>>) returns (msg: array<char>)
    requires list.Valid() && CleanList(list.nodes)
    requires |Report(Vals(list.nodes))| < NATS_MSG_MAX_LEN
    ensures fresh(msg) && NUL in msg[..] && CText(msg[..]) == Report(Vals(list.nodes))
  {
    assert Linked(list.nodes) && list.len == |list.nodes|;
    hide *;
    msg := new char[NATS_MSG_MAX_LEN](_ => NUL);
    assert msg[..][0] == NUL;
    CTextIs(msg[..], []);
    if list.len == 0 {
      WrittenEnds(list.nodes);
      return;
    }
    var it := list.NewIterator(LIST_TAIL);
    WalkDevices(it, msg, list.nodes);
  }

  lemma {:induction false} CleanInfo(d: Device)
    requires CleanDevice(Some(d))
    ensures NUL !in DeviceInfo(d)
  {
  }

  /** `n` strings of at most 99 characters join to at most `100 n - 1`. */
  lemma {:induction false} JoinLength(ss: seq<string>)
    requires ss != [] && forall i :: 0 <= i < |ss| ==> |ss[i]| <= INFO_SIZE - 1
    ensures |Join(ss)| <= INFO_SIZE * |ss| - 1
    ensures (forall i :: 0 <= i < |ss| ==> |ss[i]| == INFO_SIZE - 1) ==> |Join(ss)| == INFO_SIZE * |ss| - 1
  {
    var m := |ss| - 1;
    if m > 0 {
      assert forall i :: 0 <= i < m ==> ss[..m][i] == ss[i];
      JoinLength(ss[..m]);
    }
  }

  /** When every node has a value, the strings are those of the nodes, one each. */
  lemma {:induction false} InfosAt(vals: seq<Option<Device>>, i: nat)
    requires i < |vals| && forall v :: v in vals ==> v.Some?
    ensures |Infos(vals)| == |vals| && Infos(vals)[i] == DeviceInfo(vals[i].value)
  {
    hide DeviceInfo;
    var m := |vals| - 1;
    if i < m {
      assert forall v :: v in vals[..m] ==> v in vals;
      InfosAt(vals[..m], i);
    }
  }

  /** A device whose string fills the temporary buffer. */
  function LongDevice(): (d: Device)
    ensures |DeviceInfo(d)| == INFO_SIZE - 1
  {
    Device(seq(INFO_SIZE, _ => 'x'), "")
  }

  lemma {:induction false} LongReport(n: nat)
    requires n > 20
    ensures |Report(seq(n, _ => Some(LongDevice())))| >= NATS_MSG_MAX_LEN
  {
    hide DeviceInfo, Infos, Join, LongDevice;
    var vals := seq(n, _ => Some(LongDevice()));
    assert Reversed(vals) == vals;
    forall i | 0 <= i < n ensures |Infos(vals)| == n && |Infos(vals)[i]| == INFO_SIZE - 1 {
      InfosAt(vals, i);
    }
    assert |Infos(vals)| == n && |Infos(vals)[0]| == INFO_SIZE - 1;
    JoinLength(Infos(vals));
  }

  /** The reports of all lists of `n` nodes fit the buffer exactly if `n` is at most 20. */
  lemma {:induction false} AlwaysFitsIff(n: nat)
    ensures (forall vals: seq<Option<Device>> :: |vals| == n ==> |Report(vals)| < NATS_MSG_MAX_LEN) <==> n <= 20
  {
    hide DeviceInfo, Infos, Join;
    if n <= 20 {
      forall vals: seq<Option<Device>> | |vals| == n ensures |Report(vals)| < NATS_MSG_MAX_LEN {
        var ss := Infos(Reversed(vals));
        if ss == [] {
          NothingReported();
        } else {
          JoinLength(ss);
        }
      }
    } else {
      LongReport(n);
      assert |seq(n, _ => Some(LongDevice()))| == n;
    }
  }
}
