/** The router's configuration, its interface and route lists as values, and
    the longest-prefix match on them. */
module Network {
  import opened Bytes
  import opened WordBits

  datatype Option<T> = None | Some(value: T)

  datatype Iface = Iface(name: Name, addr: Mac, ip: Ip)

  datatype Route = Route(dest: Ip, gw: Ip, mask: Ip, iface: Name)

  /** The byte order of the host that loads a `uint32_t`. */
  datatype ByteOrder = BigEndianHost | LittleEndianHost

  datatype Config = Config(ifs: seq<Iface>, routes: seq<Route>, order: ByteOrder)

  // ---------- lookups in the interface list ----------

  function FindName(ifs: seq<Iface>, name: Name): (r: Option<Iface>)
    ensures r.Some? ==> r.value in ifs && r.value.name == name
    ensures r.None? ==> forall i :: i in ifs ==> i.name != name
  {
    if ifs == [] then None
    else if ifs[0].name == name then Some(ifs[0])
    else FindName(ifs[1..], name)
  }

  function FindIp(ifs: seq<Iface>, ip: Ip): (r: Option<Iface>)
    ensures r.Some? ==> r.value in ifs && r.value.ip == ip
    ensures r.None? ==> forall i :: i in ifs ==> i.ip != ip
  {
    if ifs == [] then None
    else if ifs[0].ip == ip then Some(ifs[0])
    else FindIp(ifs[1..], ip)
  }

  /** The interface called `name`. Where there is none the C code dereferences
      NULL; the callers rule that out. */
  function Named(ifs: seq<Iface>, name: Name): Iface {
    match FindName(ifs, name)
    case Some(i) => i
    case None => Iface(name, Zeros(6), Zeros(4))
  }

  /** Every route leaves by an interface that exists. */
  predicate Consistent(cfg: Config) {
    forall r :: r in cfg.routes ==> FindName(cfg.ifs, r.iface).Some?
  }

  // ---------- longest-prefix match ----------

  /** The four octets as a number, most significant first. */
  function NetworkWord(ip: Ip): bv32 {
    Digits(ip)
  }

  function Digits(s: seq<byte>): bv32 {
    if s == [] then 0 else 0x100 * Digits(s[..|s| - 1]) + (s[|s| - 1] as bv32)
  }

  lemma {:induction false} DigitsOfZeros(n: nat)
    ensures Digits(Zeros(n)) == 0
  {
    if n > 0 {
      assert Zeros(n)[..n - 1] == Zeros(n - 1);
      DigitsOfZeros(n - 1);
    }
  }

  /** The same octets as the host loads them into a `uint32_t`. */
  function HostWord(order: ByteOrder, x: bv32): bv32 {
    if order == BigEndianHost then x else ByteSwap(x)
  }

  function Load(order: ByteOrder, ip: Ip): bv32 {
    HostWord(order, NetworkWord(ip))
  }

  /** The test on one entry, on host words: masked equality. */
  predicate Matches(r: Route, order: ByteOrder, dst: Ip) {
    SameUnder(Load(order, r.mask), Load(order, dst), Load(order, r.dest))
  }

  /** The mask of the best entry so far, 0 before the first. */
  function BestMask(routes: seq<Route>, order: ByteOrder, best: Option<nat>): bv32
    requires best.Some? ==> best.value < |routes|
  {
    match best
    case None => 0
    case Some(k) => Load(order, routes[k].mask)
  }

  /** The position the scan of the table ends on: an entry replaces the best so
      far when it matches and its raw mask is numerically larger. */
  function LongestMatch(routes: seq<Route>, order: ByteOrder, dst: Ip): (best: Option<nat>)
    ensures best.Some? ==> best.value < |routes|
  {
    if routes == [] then None
    else
      var n := |routes| - 1;
      var best := LongestMatch(routes[..n], order, dst);
      if Matches(routes[n], order, dst) && Exceeds(Load(order, routes[n].mask), BestMask(routes[..n], order, best))
      then Some(n) else best
  }

  /** A number of leading bits. */
  type PrefixLength = k: nat | k <= 32

  /** The contiguous mask of `k` leading ones, as a number in network order. */
  function PrefixMask(k: PrefixLength): bv32 {
    HighOnes(32 - k)
  }

  /** The first `k` bits of `x` and `y` agree. */
  predicate SamePrefix(x: bv32, y: bv32, k: PrefixLength) {
    Drop(x, 32 - k) == Drop(y, 32 - k)
  }

  /** Every mask of the table is contiguous, `lens[i]` giving its length. */
  predicate Contiguous(routes: seq<Route>, lens: seq<PrefixLength>) {
    |lens| == |routes| &&
    forall i :: 0 <= i < |routes| ==> NetworkWord(routes[i].mask) == PrefixMask(lens[i])
  }

  /** The route's network contains `dst`: a statement about prefixes alone. */
  predicate Covers(r: Route, k: PrefixLength, dst: Ip) {
    SamePrefix(NetworkWord(dst), NetworkWord(r.dest), k)
  }

  // ---------- masks and prefixes, bit by bit ----------

  /** A shorter contiguous mask is a smaller number in either byte order: it has
      strictly fewer bits, wherever those bits are moved. */
  lemma ShorterMaskIsSmaller(order: ByteOrder, j: PrefixLength, k: PrefixLength)
    requires j < k
    ensures Exceeds(HostWord(order, PrefixMask(k)), HostWord(order, PrefixMask(j)))
    ensures !Exceeds(HostWord(order, PrefixMask(j)), HostWord(order, PrefixMask(k)))
  {
    hide ByteSwap, FewerBits, HighOnes, Exceeds;
    var a, b := PrefixMask(j), PrefixMask(k);
    MoreClearedIsFewerBits(32 - k, 32 - j);
    SwapKeepsFewerBits(a, b);
    FewerBitsIsSmaller(HostWord(order, a), HostWord(order, b));
  }

  /** Comparing raw masks as host words is comparing prefix lengths. */
  lemma MaskOrderIsPrefixOrder(order: ByteOrder, j: PrefixLength, k: PrefixLength)
    ensures Exceeds(HostWord(order, PrefixMask(k)), HostWord(order, PrefixMask(j))) <==> j < k
  {
    hide HostWord, PrefixMask, Exceeds;
    NothingExceedsItself(HostWord(order, PrefixMask(k)));
    if j < k {
      ShorterMaskIsSmaller(order, j, k);
    } else if k < j {
      ShorterMaskIsSmaller(order, k, j);
    }
  }

  lemma ZeroMask(order: ByteOrder)
    ensures PrefixMask(0) == 0 == HostWord(order, 0)
  {
    assert HighOnes(8) == 0xffff_ff00;
    assert HighOnes(16) == 0xffff_0000;
    assert HighOnes(24) == 0xff00_0000;
    assert HighOnes(32) == 0;
  }

  // ---------- the scan finds the longest prefix ----------

  /** The result of the scan, in terms of prefixes: the entry covers the
      destination, no covering entry has a longer prefix, none as long was added
      earlier, and there is a result as soon as some entry with a non-zero mask
      covers the destination. A mask of 0.0.0.0 never wins. */
  ghost predicate IsLongestPrefix(routes: seq<Route>, lens: seq<PrefixLength>, dst: Ip, best: Option<nat>)
    requires |lens| == |routes|
  {
    match best
    case None => forall i :: 0 <= i < |routes| && Covers(routes[i], lens[i], dst) ==> lens[i] == 0
    case Some(k) =>
      && k < |routes| && lens[k] > 0 && Covers(routes[k], lens[k], dst)
      && (forall i :: 0 <= i < |routes| && Covers(routes[i], lens[i], dst) ==> lens[i] <= lens[k])
      && (forall i :: 0 <= i < k && Covers(routes[i], lens[i], dst) ==> lens[i] < lens[k])
  }

  lemma {:induction false} LongestMatchIsLongestPrefix(routes: seq<Route>, order: ByteOrder,
      dst: Ip, lens: seq<PrefixLength>)
    requires Contiguous(routes, lens)
    ensures IsLongestPrefix(routes, lens, dst, LongestMatch(routes, order, dst))
  {
    hide Load, HostWord, NetworkWord, PrefixMask, Covers, Matches, Exceeds;
    if routes != [] {
      var n := |routes| - 1;
      LongestMatchIsLongestPrefix(routes[..n], order, dst, lens[..n]);
      var best := LongestMatch(routes[..n], order, dst);
      MatchIsCover(routes[n], order, dst, lens[n]);
      BestMaskOrder(routes, order, lens, best);
      ExtendBest(routes, lens, dst, best, LongestMatch(routes, order, dst));
    }
  }

  /** The length of the best prefix so far, 0 before the first. */
  function BestLength(lens: seq<PrefixLength>, best: Option<nat>): PrefixLength
    requires best.Some? ==> best.value < |lens|
  {
    if best.Some? then lens[best.value] else 0
  }

  lemma MatchIsCover(r: Route, order: ByteOrder, dst: Ip, k: PrefixLength)
    requires NetworkWord(r.mask) == PrefixMask(k)
    ensures Matches(r, order, dst) <==> Covers(r, k, dst)
  {
    hide ByteSwap, SameUnder, HighOnes, Drop, NetworkWord;
    var x, y := NetworkWord(dst), NetworkWord(r.dest);
    MaskedEqualityIsDroppedEquality(32 - k, x, y);
    SwapKeepsSameUnder(PrefixMask(k), x, y);
  }

  lemma BestMaskOrder(routes: seq<Route>, order: ByteOrder, lens: seq<PrefixLength>, best: Option<nat>)
    requires Contiguous(routes, lens) && |routes| > 0
    requires best.Some? ==> best.value < |routes| - 1
    ensures var n := |routes| - 1;
      Exceeds(Load(order, routes[n].mask), BestMask(routes[..n], order, best)) <==> lens[n] > BestLength(lens, best)
  {
    hide HostWord, NetworkWord, PrefixMask, Exceeds;
    MaskOrderIsPrefixOrder(order, BestLength(lens, best), lens[|routes| - 1]);
    ZeroMask(order);
  }

  /** One more entry: it takes over exactly when it covers and its prefix is longer. */
  lemma ExtendBest(routes: seq<Route>, lens: seq<PrefixLength>, dst: Ip, best: Option<nat>, next: Option<nat>)
    requires |lens| == |routes| > 0
    requires IsLongestPrefix(routes[..|routes| - 1], lens[..|routes| - 1], dst, best)
    requires
      var n := |routes| - 1;
      next == if Covers(routes[n], lens[n], dst) && lens[n] > BestLength(lens, best) then Some(n) else best
    ensures IsLongestPrefix(routes, lens, dst, next)
  {
    hide Covers;
    var n := |routes| - 1;
    assert forall i :: 0 <= i < n ==> routes[..n][i] == routes[i] && lens[..n][i] == lens[i];
  }

  /** A default route covers every destination. */
  lemma DefaultRouteMatches(r: Route, order: ByteOrder, dst: Ip)
    requires r.mask == DEFAULT_MASK
    ensures Matches(r, order, dst)
  {
    hide SameUnder;
    LoadOfNothing(order);
    NothingMasked(Load(order, dst), Load(order, r.dest));
  }

  const DEFAULT_MASK: Ip := [0, 0, 0, 0]

  lemma LoadOfNothing(order: ByteOrder)
    ensures Load(order, DEFAULT_MASK) == 0
  {
    assert DEFAULT_MASK == Zeros(4);
    DigitsOfZeros(4);
  }

  /** And yet it is never chosen, whatever else the table holds. */
  lemma {:induction false} DefaultRouteIsIgnored(routes: seq<Route>, order: ByteOrder, dst: Ip)
    ensures var best := LongestMatch(routes, order, dst);
      best.Some? ==> routes[best.value].mask != DEFAULT_MASK
  {
    hide Matches, Load, Exceeds;
    if routes != [] {
      var n := |routes| - 1;
      DefaultRouteIsIgnored(routes[..n], order, dst);
      LoadOfNothing(order);
      NothingIsBelowZero(BestMask(routes[..n], order, LongestMatch(routes[..n], order, dst)));
    }
  }
}
