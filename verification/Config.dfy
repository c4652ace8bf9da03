/** The end of each server block of the configuration, and the table of listening ports built from it. */
module Config {
  import opened Bytes
  import opened Servers

  type ServerMap = map<bytes, Server>
  type PortMap = map<nat, ServerMap>

  // ----- listen -----

  predicate IsDigit(c: byte) {
    '0' <= c <= '9'
  }

  predicate AllDigits(s: bytes) {
    forall i :: 0 <= i < |s| ==> IsDigit(s[i])
  }

  function DecValue(s: bytes): nat
    requires AllDigits(s)
  {
    if s == [] then 0 else 10 * DecValue(s[..|s| - 1]) + (s[|s| - 1] as int - '0' as int)
  }

  const LOCALHOST: bytes := "localhost:"
  const LOOPBACK: bytes := "127.0.0.1:"

  /** `s` is a numeral for `n` in base 10, with any number of zeros in front. */
  predicate Decimal(s: bytes, n: nat) {
    if s == [] then n == 0 else s[|s| - 1] == "0123456789"[n % 10] && Decimal(s[..|s| - 1], n / 10)
  }

  /** The value of a string of digits is the number it is a numeral for. */
  lemma {:induction false} DecimalIff(s: bytes, n: nat)
    ensures Decimal(s, n) <==> AllDigits(s) && DecValue(s) == n
    decreases |s|
  {
    if s != [] {
      var init, c := s[..|s| - 1], s[|s| - 1];
      DigitTable(c, n % 10);
      DecimalIff(init, n / 10);
      assert s == init + [c];
    }
  }

  lemma DigitTable(c: byte, d: nat)
    requires d < 10
    ensures c == "0123456789"[d] <==> IsDigit(c) && c as int - '0' as int == d
  {
    assert "0123456789"[d] == (48 + d) as char;
  }

  /** A port number from 1 to 65535 in at most five digits, with or without a local address before it. */
  predicate SpellsPort(text: bytes, port: nat) {
    && 0 < port <= 65535
    && (|| (0 < |text| <= 5 && Decimal(text, port))
        || (10 < |text| <= 15 && (text[..10] == "localhost:" || text[..10] == "127.0.0.1:")
            && Decimal(text[10..], port)))
  }

  /** Whether all bytes are digits. */
  method Digits(s: bytes) returns (r: bool)
    ensures r <==> AllDigits(s)
  {
    var i := 0;
    while i < |s|
      invariant i <= |s| && AllDigits(s[..i])
    {
      if !IsDigit(s[i]) {
        return false;
      }
      i := i + 1;
    }
    return true;
  }

  /** Length of the digits a string begins with. */
  function DigitRun(s: bytes): (n: nat)
    ensures n <= |s| && AllDigits(s[..n]) && (n < |s| ==> !IsDigit(s[n]))
  {
    if s == [] || !IsDigit(s[0]) then 0
    else
      var n := 1 + DigitRun(s[1..]);
      assert forall i :: 1 <= i < n ==> s[i] == s[1..][..n - 1][i - 1];
      n
  }

  /** `std::atoi`, where its result is defined. */
  function Atoi(s: bytes): nat {
    DecValue(s[..DigitRun(s)])
  }

  /** The part of an argument that is examined: its length is kept in eight bits. */
  predicate Examined(text: bytes) {
    var n := |text| % 256;
    if 0 < n <= 5 then AllDigits(text[..n])
    else 10 <= n <= 15 && text[..10] in [LOCALHOST, LOOPBACK] && AllDigits(text[10..n])
  }

  /** The port number that is read once that part is accepted. */
  function ListenPort(text: bytes): (r: Option<nat>)
    ensures r.Some? ==> 0 < r.value <= 65535
  {
    var port := Atoi(if 10 <= |text| % 256 <= 15 then text[10..] else text);
    if Examined(text) && 0 < port <= 65535 then Some(port) else None
  }

  /** `conf_listen` */
  method ParseListen(text: bytes) returns (r: Option<nat>)
    ensures r == ListenPort(text)
    ensures |text| < 256 ==> forall port: nat :: r == Some(port) <==> SpellsPort(text, port)
  {
    hide SpellsPort, ListenPort;
    forall port: nat | |text| < 256
      ensures ListenPort(text) == Some(port) <==> SpellsPort(text, port)
    {
      ListenShort(text, port);
    }
    r := ReadPort(text);
  }

  method ReadPort(text: bytes) returns (r: Option<nat>)
    ensures r == ListenPort(text)
  {
    var rest, n := text, |text| % 256;
    r := None;
    if 0 < n <= 5 {
      var ok := Digits(text[..n]);
      if !ok {
        return;
      }
    } else if 10 <= n <= 15 {
      if text[..10] != LOCALHOST && text[..10] != LOOPBACK {
        return;
      }
      var ok := Digits(text[10..n]);
      if !ok {
        return;
      }
      rest := text[10..];
    } else {
      return;
    }
    var port := Atoi(rest);
    if port > 65535 || port <= 0 {
      return;
    }
    r := Some(port);
  }

  lemma WholeRun(s: bytes)
    requires AllDigits(s)
    ensures Atoi(s) == DecValue(s)
  {
    assert s[..|s|] == s;
  }

  /** Digits are read up to the first other byte. */
  lemma RunBefore(s: bytes, n: nat)
    requires n <= |s| && AllDigits(s[..n]) && (n < |s| ==> !IsDigit(s[n]))
    ensures Atoi(s) == DecValue(s[..n])
  {
    assert forall i :: 0 <= i < n ==> s[i] == s[..n][i];
    RunIs(s, n);
  }

  lemma RunIs(s: bytes, n: nat)
    requires n <= |s| && (forall i :: 0 <= i < n ==> IsDigit(s[i])) && (n < |s| ==> !IsDigit(s[n]))
    ensures DigitRun(s) == n
  {
  }

  /**
   * Arguments of a length are accepted exactly when they spell a port number from 1 to 65535, with
   * that number, if and only if the eight-bit counter does not take the length for a shorter one.
   */
  lemma ListenIff(n: nat)
    ensures (forall text: bytes, port: nat | |text| == n :: ListenPort(text) == Some(port) <==> SpellsPort(text, port))
        <==> n < 256 || !(0 < n % 256 <= 5 || 10 <= n % 256 <= 15)
  {
    hide AllDigits, SpellsPort, ListenPort;
    forall text: bytes, port: nat | |text| == n && (n < 256 || !(0 < n % 256 <= 5 || 10 <= n % 256 <= 15))
      ensures ListenPort(text) == Some(port) <==> SpellsPort(text, port)
    {
      ListenShort(text, port);
    }
    if n >= 256 && (0 < n % 256 <= 5 || 10 <= n % 256 <= 15) {
      var text := ListenLong(n);
      assert |text| == n && ListenPort(text) == Some(1) && !SpellsPort(text, 1);
    }
  }

  lemma ListenShort(text: bytes, port: nat)
    requires |text| < 256 || !(0 < |text| % 256 <= 5 || 10 <= |text| % 256 <= 15)
    ensures ListenPort(text) == Some(port) <==> SpellsPort(text, port)
  {
    DecimalIff(text, port);
    if AllDigits(text) {
      WholeRun(text);
    }
    assert text[..|text|] == text;
    if |text| >= 10 {
      var d := text[10..];
      DecimalIff(d, port);
      if AllDigits(d) {
        WholeRun(d);
      }
      assert text[10..|text|] == d;
    }
    hide Decimal, DecValue, DigitRun;
  }

  /** Zeros and a one where the parser looks, and anything behind them. */
  lemma ListenLong(n: nat) returns (text: bytes)
    requires n >= 256 && (0 < n % 256 <= 5 || 10 <= n % 256 <= 15)
    ensures |text| == n && ListenPort(text) == Some(1) && !SpellsPort(text, 1)
  {
    hide AllDigits, Atoi, DecValue;
    var m := n % 256;
    if m <= 5 {
      text := OneThenMore(n, m);
      assert text[..m] == text[..m][..m];
    } else {
      var k := if m == 10 then 1 else m - 10;
      var s := OneThenMore(n - 10, k);
      text := LOCALHOST + s;
      assert text[..10] == LOCALHOST && text[10..] == s && text[10..m] == s[..m - 10];
      DigitsPrefix(s[..k], m - 10);
      assert s[..k][..m - 10] == s[..m - 10];
    }
  }

  lemma DigitsPrefix(s: bytes, n: nat)
    requires AllDigits(s) && n <= |s|
    ensures AllDigits(s[..n])
  {
  }

  /** `n` bytes that begin with `k` digits and are read as one. */
  lemma OneThenMore(n: nat, k: nat) returns (s: bytes)
    requires 0 < k < n
    ensures |s| == n && AllDigits(s[..k]) && Atoi(s) == 1
  {
    var digits: bytes := seq(k - 1, _ => '0') + "1";
    var pad: bytes := seq(n - k, _ => 'x');
    s := digits + pad;
    ZerosAndOne(k);
    assert s[..k] == digits && s[k] == 'x';
    RunBefore(s, k);
  }

  lemma ZerosAndOne(k: nat)
    requires 0 < k
    ensures var d: bytes := seq(k - 1, _ => '0') + "1"; AllDigits(d) && DecValue(d) == 1
  {
    Zeros(k - 1);
    OneMoreDigit(seq(k - 1, _ => '0'));
  }

  lemma OneMoreDigit(z: bytes)
    requires AllDigits(z)
    ensures AllDigits(z + "1") && DecValue(z + "1") == 10 * DecValue(z) + 1
  {
    assert (z + "1")[..|z|] == z && (z + "1")[|z|] == '1';
  }

  lemma {:induction false} Zeros(k: nat)
    ensures var z: bytes := seq(k, _ => '0'); AllDigits(z) && DecValue(z) == 0
  {
    if k > 0 {
      Zeros(k - 1);
      var z: bytes := seq(k, _ => '0');
      assert z[..|z| - 1] == seq(k - 1, _ => '0');
    }
  }

  // ----- the end of a server block -----

  /** What a finished server block has set. */
  datatype Block = Block(
    port: nat, wantsDefault: bool, name: Option<bytes>, rootSlash: bool,
    uriCase: map<bytes, Location>, cgiCase: map<bytes, Location>)

  /** A server without a name is called `localhost`. */
  function NameOf(b: Block): bytes {
    match b.name case Some(n) => n case None => "localhost"
  }

  /** A port has exactly one default server, and servers are stored under their names and ports. */
  ghost predicate PortGood(port: nat, servers: ServerMap) {
    && (forall n :: n in servers ==> servers[n].name == n && servers[n].port == port)
    && exists d :: DefaultIs(servers, d)
  }

  predicate DefaultIs(servers: ServerMap, d: bytes) {
    d in servers && forall n :: n in servers ==> (servers[n].isDefault <==> n == d)
  }

  ghost predicate Good(total: PortMap) {
    forall p :: p in total ==> PortGood(p, total[p])
  }

  class Parser {
    var total: PortMap

    constructor ()
      ensures total == map[] && Good(total)
    {
      total := map[];
    }

    /** `conf_zero` after a server block; `dirOpens` is what `opendir` answers for its root. */
    method CommitServer(b: Block, dirOpens: bool) returns (ok: bool)
      requires Good(total)
      modifies this
      ensures Good(total)
      ensures var name := if b.name.Some? then b.name.value else "localhost";
              ok <==> b.rootSlash && dirOpens
                      && (b.port !in old(total) || (!b.wantsDefault && name !in old(total)[b.port]))
      ensures !ok ==> total == old(total)
      ensures ok ==> total.Keys == old(total).Keys + {b.port}
      ensures ok ==> forall p :: p in old(total) && p != b.port ==> total[p] == old(total)[p]
      ensures ok ==>
                var name := if b.name.Some? then b.name.value else "localhost";
                var first := b.port !in old(total);
                var before := if first then map[] else old(total)[b.port];
                total[b.port] == before[name := Server(b.port, first, name, b.uriCase, b.cgiCase)]
    {
      hide PortGood;
      if !b.rootSlash {
        return false;
      }
      var name := NameOf(b);
      if !dirOpens {
        return false;
      }
      var isDefault := b.wantsDefault;
      if b.port !in total {
        isDefault := true;
      } else if isDefault {
        return false;
      }
      var server := Server(b.port, isDefault, name, b.uriCase, b.cgiCase);
      if b.port !in total {
        FirstServer(b.port, server);
        total := total[b.port := map[name := server]];
      } else {
        if name in total[b.port] {
          return false;
        }
        FurtherServer(b.port, total[b.port], server);
        total := total[b.port := total[b.port][name := server]];
      }
      return true;
    }
  }

  lemma FirstServer(port: nat, s: Server)
    requires s.port == port && s.isDefault
    ensures PortGood(port, map[s.name := s])
  {
    assert DefaultIs(map[s.name := s], s.name);
  }

  lemma FurtherServer(port: nat, servers: ServerMap, s: Server)
    requires PortGood(port, servers) && s.port == port && !s.isDefault && s.name !in servers
    ensures PortGood(port, servers[s.name := s]) && servers != map[]
  {
    var d :| DefaultIs(servers, d);
    assert DefaultIs(servers[s.name := s], d);
  }

  /** The default server of a port is unique. */
  lemma DefaultUnique(servers: ServerMap, d: bytes, e: bytes)
    requires DefaultIs(servers, d) && DefaultIs(servers, e)
    ensures d == e
  {
  }

  // ----- the port table -----

  /** `port_info_t` */
  datatype PortInfo = PortInfo(listenSd: int, port: nat, defaultServer: Server, servers: ServerMap)

  predicate Ascending(s: seq<int>) {
    forall i, j :: 0 <= i < j < |s| ==> s[i] < s[j]
  }

  /** The entry of a port. */
  predicate EntryFor(e: PortInfo, sd: int, port: nat, servers: ServerMap) {
    && e.listenSd == sd && e.port == port && e.servers == servers
    && e.defaultServer.isDefault && e.defaultServer in servers.Values
  }

  /** The default server among the servers of a port, in the order of the map. */
  method FindDefault(servers: ServerMap, names: seq<bytes>) returns (r: Option<Server>)
    requires forall n :: n in names <==> n in servers
    ensures r == None ==> forall n :: n in servers ==> !servers[n].isDefault
    ensures r.Some? ==> r.value in servers.Values && r.value.isDefault
  {
    for i := 0 to |names|
      invariant forall j :: 0 <= j < i ==> !servers[names[j]].isDefault
    {
      assert names[i] in servers;
      if servers[names[i]].isDefault {
        return Some(servers[names[i]]);
      }
    }
    return None;
  }

  /**
   * `socket_init_and_build_port_info`.  `ports` are the keys in map order, `names[k]` those of
   * port `k`, and `sds` the descriptors `socket` returns, which grow.
   */
  method BuildPortInfo(total: PortMap, ports: seq<nat>, names: seq<seq<bytes>>, sds: seq<int>)
    returns (table: seq<PortInfo>)
    requires Good(total) && |ports| == |sds| == |names|
    requires forall k :: 0 <= k < |ports| ==> ports[k] in total && forall n :: n in names[k] <==> n in total[ports[k]]
    requires Ascending(sds) && (forall k :: 0 <= k < |sds| ==> sds[k] >= 0)
    ensures |table| == if sds == [] then 0 else sds[|sds| - 1] + 1
    ensures forall i :: 0 <= i < |table| ==> (table[i].listenSd == i <==> i in sds)
    ensures forall k :: 0 <= k < |sds| ==>
              sds[k] < |table| && EntryFor(table[sds[k]], sds[k], ports[k], total[ports[k]])
    ensures forall k :: 0 <= k < |sds| ==>
              var e := table[sds[k]];
              && e.listenSd == sds[k] && e.port == ports[k] && e.servers == total[ports[k]]
              && e.defaultServer.isDefault && e.defaultServer in e.servers.Values
  {
    table := [];
    var socketSize := -1;
    for k := 0 to |ports|
      invariant socketSize == (if k == 0 then -1 else sds[k - 1]) && |table| == socketSize + 1
      invariant forall i :: 0 <= i < |table| ==> (table[i].listenSd == i <==> i in sds[..k])
      invariant forall j :: 0 <= j < k ==>
                  sds[j] < |table| && EntryFor(table[sds[j]], sds[j], ports[j], total[ports[j]])
    {
      hide EntryFor;
      var entry := MakeEntry(sds[k], ports[k], total[ports[k]], names[k]);
      ghost var before := table;
      table := FillUpTo(table, socketSize, sds[k], entry);
      TableGrows(before, table, sds, k, entry);
      socketSize := sds[k];
    }
    assert sds[..|sds|] == sds;
    Entries(table, sds, ports, total);
  }

  lemma Entries(table: seq<PortInfo>, sds: seq<int>, ports: seq<nat>, total: PortMap)
    requires |ports| == |sds| && forall k :: 0 <= k < |ports| ==> ports[k] in total
    requires forall k :: 0 <= k < |sds| ==>
               0 <= sds[k] < |table| && EntryFor(table[sds[k]], sds[k], ports[k], total[ports[k]])
    ensures forall k :: 0 <= k < |sds| ==>
              var e := table[sds[k]];
              && e.listenSd == sds[k] && e.port == ports[k] && e.servers == total[ports[k]]
              && e.defaultServer.isDefault && e.defaultServer in e.servers.Values
  {
  }

  /** The entry of a listener, with the default server of its port. */
  method MakeEntry(sd: int, port: nat, servers: ServerMap, names: seq<bytes>) returns (entry: PortInfo)
    requires PortGood(port, servers) && forall n :: n in names <==> n in servers
    ensures EntryFor(entry, sd, port, servers) && entry.listenSd == sd
  {
    var found := FindDefault(servers, names);
    HasDefault(port, servers);
    entry := PortInfo(sd, port, found.value, servers);
  }

  /** Copies of an entry up to its own index leave exactly one place that carries its descriptor. */
  lemma TableGrows(before: seq<PortInfo>, table: seq<PortInfo>, sds: seq<int>, k: nat, entry: PortInfo)
    requires k < |sds| && Ascending(sds) && sds[k] >= 0 && |before| == if k == 0 then 0 else sds[k - 1] + 1
    requires forall i :: 0 <= i < |before| ==> (before[i].listenSd == i <==> i in sds[..k])
    requires |table| == sds[k] + 1 && before <= table && entry.listenSd == sds[k]
    requires forall j :: |before| <= j < |table| ==> table[j] == entry
    ensures forall i :: 0 <= i < |table| ==> (table[i].listenSd == i <==> i in sds[..k + 1])
  {
    assert sds[..k + 1] == sds[..k] + [sds[k]];
    forall i | 0 <= i < |table|
      ensures table[i].listenSd == i <==> i in sds[..k + 1]
    {
      if i < |before| {
        assert table[i] == before[i] && i != sds[k];
      } else {
        assert table[i] == entry && i !in sds[..k];
      }
    }
  }

  /** The inner loop: copies of an entry up to its own index. */
  method FillUpTo(before: seq<PortInfo>, from: int, to: int, entry: PortInfo) returns (table: seq<PortInfo>)
    requires -1 <= from <= to && |before| == from + 1
    ensures |table| == to + 1 && before <= table
    ensures forall j :: |before| <= j < |table| ==> table[j] == entry
  {
    table := before;
    var i := from;
    while i < to
      invariant from <= i <= to && |table| == i + 1
      invariant before <= table && forall j :: |before| <= j < |table| ==> table[j] == entry
    {
      table := table + [entry];
      i := i + 1;
    }
  }

  lemma HasDefault(port: nat, servers: ServerMap)
    requires PortGood(port, servers)
    ensures exists n :: n in servers && servers[n].isDefault
  {
    var d :| DefaultIs(servers, d);
    assert d in servers && servers[d].isDefault;
  }

  /** The server for a host name: the one of that name, or the default. */
  function ServerFor(e: PortInfo, host: bytes): Server {
    if host in e.servers then e.servers[host] else e.defaultServer
  }

  /** `search_server_config_`: with a well-formed entry the answer stays on its port. */
  method SearchServerConfig(e: PortInfo, host: bytes) returns (s: Server)
    ensures s == (if host in e.servers then e.servers[host] else e.defaultServer) == ServerFor(e, host)
    ensures PortGood(e.port, e.servers) && EntryFor(e, e.listenSd, e.port, e.servers) ==>
              s.port == e.port && (s.name == host || s.isDefault)
  {
    if host in e.servers {
      return e.servers[host];
    }
    return e.defaultServer;
  }

  /** Every host name is served by a server of the port it came in on: its own, or the one default. */
  lemma LookupStaysOnPort(e: PortInfo, sd: int, port: nat, servers: ServerMap, host: bytes)
    requires PortGood(port, servers) && EntryFor(e, sd, port, servers)
    ensures var s := ServerFor(e, host);
            && s.port == port
            && (host in servers ==> s.name == host)
            && (host !in servers ==> DefaultIs(servers, s.name) && s == servers[s.name])
  {
    var n :| n in servers && servers[n] == e.defaultServer;
    var d :| DefaultIs(servers, d);
    assert servers[n].isDefault ==> n == d;
  }
}
