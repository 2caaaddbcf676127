/** The hardware description on the wire: packed on the server side, folded into
    the interface list on the router side. */
module HardwareInfo {
  import opened Bytes
  import opened Network
  import opened Interfaces

  const HWINTERFACE: uint32 := 1
  const HWSPEED: uint32 := 2
  const HWSUBNET: uint32 := 4
  const HWETHER: uint32 := 32
  const HWETHIP: uint32 := 64
  const HWMASK: uint32 := 128
  const VALUE_LENGTH: nat := 32
  const ENTRY_LENGTH: nat := 36
  const BASE_LENGTH: nat := 8

  // ---------- packing ----------

  /** An interface as the server describes it. */
  datatype Description = Description(name: seq<byte>, mac: Mac, ip: Ip, mask: Ip)

  /** The value of an entry. */
  function Padded(s: seq<byte>): (v: seq<byte>)
    ensures |v| == VALUE_LENGTH
  {
    Field(s, VALUE_LENGTH)
  }

  function PackEntry(key: uint32, value: seq<byte>): (s: seq<byte>)
    ensures |s| == ENTRY_LENGTH
  {
    BigEndian32(key) + Padded(value)
  }

  function PackInterface(d: Description): (s: seq<byte>)
    ensures |s| == 6 * ENTRY_LENGTH
  {
    PackEntry(HWINTERFACE, d.name) + PackEntry(HWSPEED, []) + PackEntry(HWETHER, d.mac)
    + PackEntry(HWETHIP, d.ip) + PackEntry(HWSUBNET, []) + PackEntry(HWMASK, d.mask)
  }

  function Pack(ds: seq<Description>): seq<byte> {
    if ds == [] then [] else Pack(ds[..|ds| - 1]) + PackInterface(ds[|ds| - 1])
  }

  // ---------- unpacking ----------

  datatype Entry = Entry(key: uint32, value: seq<byte>)

  /** What `malloc` left in the address fields of a node. */
  datatype Junk = Junk(addr: Mac, ip: Ip)

  /** The whole entries of a message body, a trailing piece being ignored. */
  function Entries(body: seq<byte>): (es: seq<Entry>)
    ensures |es| == |body| / ENTRY_LENGTH
    ensures forall i :: 0 <= i < |es| ==> |es[i].value| == VALUE_LENGTH
    ensures forall i :: 0 <= i < |es| ==> es[i] == EntryAt(body, i)
  {
    seq(|body| / ENTRY_LENGTH, i requires 0 <= i < |body| / ENTRY_LENGTH => EntryAt(body, i))
  }

  function EntryAt(body: seq<byte>, i: nat): Entry
    requires i < |body| / ENTRY_LENGTH
  {
    Entry(Word32(body[ENTRY_LENGTH * i..ENTRY_LENGTH * i + 4]),
      body[ENTRY_LENGTH * i + 4..ENTRY_LENGTH * i + ENTRY_LENGTH])
  }

  /** An address arrives only when there is an interface to give it to. */
  predicate Acceptable(ifs: seq<Iface>, e: Entry) {
    |e.value| == VALUE_LENGTH && (e.key == HWETHER || e.key == HWETHIP ==> ifs != [])
  }

  /** One entry: a name opens an interface, an address goes to the last one, and
      everything else is passed over. */
  function Absorb(ifs: seq<Iface>, e: Entry, junk: Junk): seq<Iface>
    requires Acceptable(ifs, e)
  {
    if e.key == HWINTERFACE then ifs + [Iface(CString(e.value, NAME_LENGTH), junk.addr, junk.ip)]
    else if e.key == HWETHIP then SetLastIp(ifs, e.value[..4])
    else if e.key == HWETHER then SetLastAddr(ifs, e.value[..6])
    else ifs
  }

  predicate NeedsInterface(e: Entry) {
    e.key == HWETHER || e.key == HWETHIP
  }

  /** Some entry opens an interface. */
  predicate Opens(es: seq<Entry>) {
    exists j :: 0 <= j < |es| && es[j].key == HWINTERFACE
  }

  /** The message may be handled: no address comes before the first interface. */
  predicate AllAcceptable(ifs: seq<Iface>, es: seq<Entry>) {
    es == [] ||
    var n := |es| - 1;
    && AllAcceptable(ifs, es[..n]) && |es[n].value| == VALUE_LENGTH
    && (NeedsInterface(es[n]) ==> ifs != [] || Opens(es[..n]))
  }

  /** The interface list after a whole message. */
  function Fold(ifs: seq<Iface>, es: seq<Entry>, junk: seq<Junk>): (r: seq<Iface>)
    requires AllAcceptable(ifs, es) && |junk| == |es|
    ensures ifs != [] || Opens(es) ==> r != []
    decreases |es|
  {
    if es == [] then ifs
    else
      var n := |es| - 1;
      Absorb(Fold(ifs, es[..n], junk[..n]), es[n], junk[n])
  }

  /** The loop over the entries of a message that came with its own length. It stops
      at an address that comes before the first interface, where an assertion of
      the source fails. */
  method HandleHwInfo(list: IfList, msg: array<byte>) returns (count: Option<nat>, ghost junk: seq<Junk>)
    requires list.Valid() && msg.Length >= BASE_LENGTH && Word32(msg[..4]) == msg.Length
    modifies list, list.nodes
    ensures list.Valid()
    ensures count.Some? <==> AllAcceptable(old(list.model), Entries(msg[BASE_LENGTH..]))
    ensures count.Some? ==> count.value == |junk| == |Entries(msg[BASE_LENGTH..])|
    ensures count.Some? ==> list.model == Fold(old(list.model), Entries(msg[BASE_LENGTH..]), junk)
    ensures forall ds :: msg[BASE_LENGTH..] == Pack(ds) ==>
      count == Some(6 * |ds|) && list.model == old(list.model) + AllLearnt(ds)
  {
    hide AllAcceptable, Fold, Absorb, IfList.Valid, Acceptable;
    var n := (msg.Length - BASE_LENGTH) / ENTRY_LENGTH;
    junk := [];
    ghost var es, start := Entries(msg[BASE_LENGTH..]), list.model;
    NothingFolded(start, es);
    for i := 0 to n
      invariant list.Valid() && |junk| == i
      invariant forall k :: 0 <= k < |list.nodes| ==> list.nodes[k] in old(list.nodes) || fresh(list.nodes[k])
      invariant AllAcceptable(start, es[..i]) && list.model == Fold(start, es[..i], junk)
    {
      var key, value := ReadEntry(msg, i);
      Admitted(start, es, junk, i);
      var ok;
      ghost var j;
      ok, j := AbsorbEntry(list, key, value);
      if !ok {
        PackedIsAcceptable(start, msg[BASE_LENGTH..]);
        return None, junk;
      }
      NextFolded(start, es, junk, i, j);
      junk := junk + [j];
    }
    assert es[..n] == es;
    count := Some(n);
    PackedIsLearnt(start, msg[BASE_LENGTH..], junk);
  }

  method ReadEntry(msg: array<byte>, i: nat) returns (key: uint32, value: seq<byte>)
    requires msg.Length >= BASE_LENGTH && i < (msg.Length - BASE_LENGTH) / ENTRY_LENGTH
    ensures |value| == VALUE_LENGTH && Entry(key, value) == EntryAt(msg[BASE_LENGTH..], i)
  {
    var at := BASE_LENGTH + ENTRY_LENGTH * i;
    key, value := Word32(msg[at..at + 4]), msg[at + 4..at + ENTRY_LENGTH];
    ghost var body := msg[BASE_LENGTH..];
    assert body[ENTRY_LENGTH * i..ENTRY_LENGTH * i + 4] == msg[at..at + 4];
    assert body[ENTRY_LENGTH * i + 4..ENTRY_LENGTH * i + ENTRY_LENGTH] == value;
  }

  /** The switch on the key of one entry. */
  method AbsorbEntry(list: IfList, key: uint32, value: seq<byte>) returns (ok: bool, ghost junk: Junk)
    requires list.Valid() && |value| == VALUE_LENGTH
    modifies list, list.nodes
    ensures list.Valid() && (ok <==> Acceptable(old(list.model), Entry(key, value)))
    ensures ok ==> list.model == Absorb(old(list.model), Entry(key, value), junk)
    ensures forall k :: 0 <= k < |list.nodes| ==> list.nodes[k] in old(list.nodes) || fresh(list.nodes[k])
  {
    var junkAddr: Mac, junkIp: Ip := *, *;
    junk := Junk(junkAddr, junkIp);
    assert (list.model == [] <==> list.nodes == []) && (list.nodes == [] <==> list.head == null);
    hide IfList.Valid, SetLastAddr, SetLastIp, CString;
    ok := true;
    if key == HWINTERFACE {
      ghost var before := list.nodes;
      list.AddInterface(CString(value, NAME_LENGTH), junkAddr, junkIp);
      assert list.nodes == before + [list.nodes[|before|]];
    } else if key == HWETHIP || key == HWETHER {
      if list.head == null {
        ok := false;
      } else if key == HWETHIP {
        list.SetEtherIp(value[..4]);
      } else {
        list.SetEtherAddr(value[..6]);
      }
    }
  }

  lemma NothingFolded(ifs: seq<Iface>, es: seq<Entry>)
    ensures AllAcceptable(ifs, es[..0]) && Fold(ifs, es[..0], []) == ifs
  {}

  /** The message is acceptable up to and with entry `i`, or not at all. */
  lemma Admitted(ifs: seq<Iface>, es: seq<Entry>, junk: seq<Junk>, i: nat)
    requires i < |es| && |junk| == i && AllAcceptable(ifs, es[..i]) && |es[i].value| == VALUE_LENGTH
    ensures Acceptable(Fold(ifs, es[..i], junk), es[i]) <==> AllAcceptable(ifs, es[..i + 1])
    ensures !AllAcceptable(ifs, es[..i + 1]) ==> !AllAcceptable(ifs, es)
  {
    hide Fold;
    assert es[..i + 1][..i] == es[..i];
    if AllAcceptable(ifs, es) {
      Prefix(ifs, es, i + 1);
    }
    if ifs == [] && !Opens(es[..i]) {
      NothingOpened(es[..i], junk);
    }
  }

  /** Without an entry that opens an interface there still is none. */
  lemma {:induction false} NothingOpened(es: seq<Entry>, junk: seq<Junk>)
    requires AllAcceptable([], es) && |junk| == |es| && !Opens(es)
    ensures Fold([], es, junk) == []
  {
    if es != [] {
      var n := |es| - 1;
      assert forall j :: 0 <= j < n ==> es[..n][j] == es[j];
      NothingOpened(es[..n], junk[..n]);
      assert !NeedsInterface(es[n]);
    }
  }

  /** Every prefix of an acceptable message is acceptable. */
  lemma {:induction false} Prefix(ifs: seq<Iface>, es: seq<Entry>, i: nat)
    requires AllAcceptable(ifs, es) && i <= |es|
    ensures AllAcceptable(ifs, es[..i])
    decreases |es|
  {
    if i < |es| {
      var n := |es| - 1;
      Prefix(ifs, es[..n], i);
      assert es[..n][..i] == es[..i];
    } else {
      assert es[..i] == es;
    }
  }

  lemma NextFolded(ifs: seq<Iface>, es: seq<Entry>, junk: seq<Junk>, i: nat, j: Junk)
    requires i < |es| && |junk| == i && AllAcceptable(ifs, es[..i]) && AllAcceptable(ifs, es[..i + 1])
    requires Acceptable(Fold(ifs, es[..i], junk), es[i])
    ensures Fold(ifs, es[..i + 1], junk + [j]) == Absorb(Fold(ifs, es[..i], junk), es[i], j)
  {
    hide Absorb, Acceptable;
    assert es[..i + 1][..i] == es[..i] && (junk + [j])[..i] == junk;
  }

  // ---------- the round trip ----------

  /** What the router learns of an interface: the name up to its first NUL and no
      more than 32 octets of it, the hardware address and the address. */
  function Learnt(d: Description): Iface {
    Iface(CString(d.name, NAME_LENGTH), d.mac, d.ip)
  }

  function AllLearnt(ds: seq<Description>): (r: seq<Iface>)
    ensures |r| == |ds|
    ensures forall i :: 0 <= i < |ds| ==> r[i] == Learnt(ds[i])
  {
    seq(|ds|, i requires 0 <= i < |ds| => Learnt(ds[i]))
  }

  /** The six entries of one interface. */
  function Described(d: Description): seq<Entry> {
    [Entry(HWINTERFACE, Padded(d.name)), Entry(HWSPEED, Padded([])), Entry(HWETHER, Padded(d.mac)),
     Entry(HWETHIP, Padded(d.ip)), Entry(HWSUBNET, Padded([])), Entry(HWMASK, Padded(d.mask))]
  }

  lemma EntriesConcat(a: seq<byte>, b: seq<byte>, m: nat)
    requires |a| == ENTRY_LENGTH * m
    ensures Entries(a + b) == Entries(a) + Entries(b)
  {
    hide EntryAt;
    forall i | 0 <= i < |Entries(a + b)|
      ensures Entries(a + b)[i] == (Entries(a) + Entries(b))[i]
    {
      if i < m {
        SliceOfFirst(a, b, ENTRY_LENGTH * i, ENTRY_LENGTH * i + ENTRY_LENGTH);
        SameEntry(a + b, i, a, i);
      } else {
        SliceOfSecond(a, b, ENTRY_LENGTH * (i - m), ENTRY_LENGTH * (i - m) + ENTRY_LENGTH);
        SameEntry(a + b, i, b, i - m);
      }
    }
  }

  lemma SameEntry(s: seq<byte>, i: nat, t: seq<byte>, k: nat)
    requires i < |s| / ENTRY_LENGTH && k < |t| / ENTRY_LENGTH
    requires s[ENTRY_LENGTH * i..ENTRY_LENGTH * i + ENTRY_LENGTH] ==
      t[ENTRY_LENGTH * k..ENTRY_LENGTH * k + ENTRY_LENGTH]
    ensures EntryAt(s, i) == EntryAt(t, k)
  {
    hide Word32;
    var u, v := s[ENTRY_LENGTH * i..ENTRY_LENGTH * i + ENTRY_LENGTH],
      t[ENTRY_LENGTH * k..ENTRY_LENGTH * k + ENTRY_LENGTH];
    assert s[ENTRY_LENGTH * i..ENTRY_LENGTH * i + 4] == u[..4]
      && s[ENTRY_LENGTH * i + 4..ENTRY_LENGTH * i + ENTRY_LENGTH] == u[4..];
    assert t[ENTRY_LENGTH * k..ENTRY_LENGTH * k + 4] == v[..4]
      && t[ENTRY_LENGTH * k + 4..ENTRY_LENGTH * k + ENTRY_LENGTH] == v[4..];
  }

  lemma EntryOfPacked(key: uint32, value: seq<byte>)
    ensures Entries(PackEntry(key, value)) == [Entry(key, Padded(value))]
  {
    hide Padded, BigEndian32, Word32;
    var s := PackEntry(key, value);
    assert s[..4] == BigEndian32(key) && s[4..36] == Padded(value);
    assert s[36 * 0..36 * 0 + 4] == s[..4];
  }

  lemma EntriesOfInterface(d: Description)
    ensures Entries(PackInterface(d)) == Described(d)
  {
    hide PackEntry, Entries, Padded;
    var a, b, c := PackEntry(HWINTERFACE, d.name), PackEntry(HWSPEED, []), PackEntry(HWETHER, d.mac);
    var e, f, g := PackEntry(HWETHIP, d.ip), PackEntry(HWSUBNET, []), PackEntry(HWMASK, d.mask);
    EntriesConcat(a + b + c + e + f, g, 5);
    EntriesConcat(a + b + c + e, f, 4);
    EntriesConcat(a + b + c, e, 3);
    EntriesConcat(a + b, c, 2);
    EntriesConcat(a, b, 1);
    EntryOfPacked(HWINTERFACE, d.name);
    EntryOfPacked(HWSPEED, []);
    EntryOfPacked(HWETHER, d.mac);
    EntryOfPacked(HWETHIP, d.ip);
    EntryOfPacked(HWSUBNET, []);
    EntryOfPacked(HWMASK, d.mask);
  }

  /** One more entry at the end of an acceptable message. */
  lemma Push(ifs: seq<Iface>, es: seq<Entry>, e: Entry, junk: seq<Junk>, j: Junk)
    requires AllAcceptable(ifs, es) && |junk| == |es| && |e.value| == VALUE_LENGTH
    requires NeedsInterface(e) ==> Opens(es)
    ensures AllAcceptable(ifs, es + [e]) && Acceptable(Fold(ifs, es, junk), e)
    ensures Fold(ifs, es + [e], junk + [j]) == Absorb(Fold(ifs, es, junk), e, j)
    ensures Opens(es) || e.key == HWINTERFACE ==> Opens(es + [e])
  {
    hide Absorb;
    assert (es + [e])[..|es|] == es && (junk + [j])[..|es|] == junk;
    if Opens(es) {
      var k :| 0 <= k < |es| && es[k].key == HWINTERFACE;
      assert (es + [e])[k].key == HWINTERFACE;
    } else {
      assert (es + [e])[|es|] == e;
    }
  }

  /** An address entry fills in the interface that was opened last. */
  lemma PushAddress(ifs: seq<Iface>, es: seq<Entry>, e: Entry, junk: seq<Junk>, j: Junk, r: seq<Iface>, last: Iface)
    requires AllAcceptable(ifs, es) && |junk| == |es| && |e.value| == VALUE_LENGTH && Opens(es)
    requires NeedsInterface(e) && Fold(ifs, es, junk) == r + [last]
    ensures AllAcceptable(ifs, es + [e]) && Opens(es + [e])
    ensures Fold(ifs, es + [e], junk + [j]) ==
            r + [if e.key == HWETHER then last.(addr := e.value[..6]) else last.(ip := e.value[..4])]
  {
    hide AllAcceptable, Fold, Opens;
    Push(ifs, es, e, junk, j);
  }

  /** The entries of one interface add exactly that interface, whatever stands before. */
  lemma PushInterface(ifs: seq<Iface>, es: seq<Entry>, d: Description, junk: seq<Junk>, j: seq<Junk>)
    requires AllAcceptable(ifs, es) && |junk| == |es| && |j| == 6
    ensures AllAcceptable(ifs, es + Described(d))
    ensures Fold(ifs, es + Described(d), junk + j) == Fold(ifs, es, junk) + [Learnt(d)]
  {
    hide AllAcceptable, Fold, Padded, CString, Opens;
    var r, a := Fold(ifs, es, junk), Described(d);
    var newest := Iface(CString(d.name, NAME_LENGTH), j[0].addr, j[0].ip);
    PaddedText(d.name);
    PaddedValue(d.mac);
    PaddedValue(d.ip);
    Push(ifs, es, a[0], junk, j[0]);
    Push(ifs, es + [a[0]], a[1], junk + [j[0]], j[1]);
    var es2, j2 := es + [a[0]] + [a[1]], junk + [j[0]] + [j[1]];
    assert Fold(ifs, es2, j2) == r + [newest];
    hide Absorb;
    PushAddress(ifs, es2, a[2], j2, j[2], r, newest);
    PushAddress(ifs, es2 + [a[2]], a[3], j2 + [j[2]], j[3], r, newest.(addr := d.mac));
    PushRest(ifs, es2 + [a[2]] + [a[3]], a[4], a[5], j2 + [j[2]] + [j[3]], j[4], j[5]);
    SixMore(es, a);
    SixMore(junk, j);
  }

  lemma SixMore<T>(s: seq<T>, a: seq<T>)
    requires |a| == 6
    ensures s + [a[0]] + [a[1]] + [a[2]] + [a[3]] + [a[4]] + [a[5]] == s + a
  {}

  /** Entries with other keys change nothing. */
  lemma PushRest(ifs: seq<Iface>, es: seq<Entry>, e: Entry, f: Entry, junk: seq<Junk>, j: Junk, k: Junk)
    requires AllAcceptable(ifs, es) && |junk| == |es| && |e.value| == |f.value| == VALUE_LENGTH
    requires e.key == HWSUBNET && f.key == HWMASK
    ensures AllAcceptable(ifs, es + [e] + [f])
    ensures Fold(ifs, es + [e] + [f], junk + [j] + [k]) == Fold(ifs, es, junk)
  {
    hide AllAcceptable, Fold, Opens;
    Push(ifs, es, e, junk, j);
    Push(ifs, es + [e], f, junk + [j], k);
  }

  /** Filling up with NULs, or cutting at the limit, does not change the text. */
  lemma PaddedText(s: seq<byte>)
    ensures CString(Padded(s), NAME_LENGTH) == CString(s, NAME_LENGTH)
  {
    hide CString;
    if |s| >= VALUE_LENGTH {
      CStringOfCut(s, VALUE_LENGTH);
    } else {
      CStringOfFilled(s, VALUE_LENGTH);
    }
  }

  lemma {:induction false} CStringOfCut(s: seq<byte>, limit: nat)
    requires |s| >= limit
    ensures CString(s[..limit], limit) == CString(s, limit)
    decreases |s|
  {
    var t := s[..limit];
    hide CString;
    if limit == 0 {
      assert t == [];
    } else {
      CutTail(s, limit);
      CStringOfCut(s[1..], limit - 1);
      NextOfText(t, limit);
      NextOfText(s, limit);
    }
  }

  lemma CutTail(s: seq<byte>, limit: nat)
    requires 0 < limit <= |s|
    ensures s[..limit][0] == s[0] && s[..limit][1..] == s[1..][..limit - 1]
  {}

  lemma NextOfText(s: seq<byte>, limit: nat)
    requires s != [] && limit > 0
    ensures CString(s, limit) == if s[0] == 0 then [] else [s[0]] + CString(s[1..], limit - 1)
  {}

  lemma {:induction false} CStringOfFilled(s: seq<byte>, limit: nat)
    requires |s| < limit
    ensures CString(s + Zeros(limit - |s|), limit) == CString(s, limit)
    decreases |s|
  {
    var t := s + Zeros(limit - |s|);
    if s == [] {
      assert t[0] == 0;
    } else if s[0] != 0 {
      CStringOfFilled(s[1..], limit - 1);
      assert t[1..] == s[1..] + Zeros(limit - |s|);
    }
  }

  lemma PaddedValue(s: seq<byte>)
    requires |s| <= VALUE_LENGTH
    ensures Padded(s)[..|s|] == s
  {}

  /** For any interfaces on the server side, what the router adds to its list is
      exactly those, in order, whatever `malloc` leaves in the new nodes. */
  lemma {:induction false} RoundTrip(ifs: seq<Iface>, ds: seq<Description>, junk: seq<Junk>)
    requires |junk| == 6 * |ds|
    ensures var es := Entries(Pack(ds));
      |es| == |junk| && AllAcceptable(ifs, es) && Fold(ifs, es, junk) == ifs + AllLearnt(ds)
    decreases |ds|
  {
    hide AllAcceptable, Fold, PackInterface, Described, Learnt, Entries;
    if ds == [] {
      NothingFolded(ifs, Entries([]));
      EmptyBody();
    } else {
      var n := |ds| - 1;
      RoundTrip(ifs, ds[..n], junk[..6 * n]);
      PackLength(ds[..n]);
      EntriesConcat(Pack(ds[..n]), PackInterface(ds[n]), 6 * n);
      EntriesOfInterface(ds[n]);
      PushInterface(ifs, Entries(Pack(ds[..n])), ds[n], junk[..6 * n], junk[6 * n..]);
      assert junk == junk[..6 * n] + junk[6 * n..];
      assert AllLearnt(ds) == AllLearnt(ds[..n]) + [Learnt(ds[n])];
    }
  }

  /** What the server packs for any interfaces is acceptable. */
  lemma PackedIsAcceptable(ifs: seq<Iface>, body: seq<byte>)
    ensures forall ds :: body == Pack(ds) ==> AllAcceptable(ifs, Entries(body))
  {
    forall ds | body == Pack(ds)
      ensures AllAcceptable(ifs, Entries(body))
    {
      RoundTrip(ifs, ds, seq(6 * |ds|, _ => Junk(Zeros(6), Zeros(4))));
    }
  }

  /** And the router learns exactly them. */
  lemma PackedIsLearnt(ifs: seq<Iface>, body: seq<byte>, junk: seq<Junk>)
    requires AllAcceptable(ifs, Entries(body)) && |junk| == |Entries(body)|
    ensures forall ds :: body == Pack(ds) ==>
      |junk| == 6 * |ds| && Fold(ifs, Entries(body), junk) == ifs + AllLearnt(ds)
  {
    hide AllAcceptable, Fold, Entries, Pack;
    forall ds | body == Pack(ds)
      ensures |junk| == 6 * |ds| && Fold(ifs, Entries(body), junk) == ifs + AllLearnt(ds)
    {
      RoundTrip(ifs, ds, seq(6 * |ds|, _ => Junk(Zeros(6), Zeros(4))));
      RoundTrip(ifs, ds, junk);
    }
  }

  lemma {:induction false} PackLength(ds: seq<Description>)
    ensures |Pack(ds)| == 6 * ENTRY_LENGTH * |ds|
    decreases |ds|
  {
    hide PackInterface;
    if ds != [] {
      PackLength(ds[..|ds| - 1]);
    }
  }

  lemma EmptyBody()
    ensures Entries([]) == []
  {}

  /** A name survives the trip exactly when it has no NUL and at most 32 octets. */
  lemma NameSurvives(d: Description)
    ensures Learnt(d).name == d.name <==> 0 !in d.name && |d.name| <= NAME_LENGTH
  {
    var t := CString(d.name, NAME_LENGTH);
    if t != d.name && |d.name| <= NAME_LENGTH {
      assert d.name[|t|] == 0;
    }
  }
}
