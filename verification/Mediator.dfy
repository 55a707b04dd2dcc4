/** The P2P mediator (EmiP2PSock.h, EmiP2PConn.h): it joins two peers that
    present the two cookies of a pair, and forwards packets between them. */
module Mediator {
  import opened NetUtil
  import opened Options
  import opened Streams

  // The nil address cannot be the sender or the receiver of a packet.
  datatype Address = Nil | Endpoint(ip: Data, port: nat)

  type RandNum = Data

  // ----- cookies

  // The keyed hash, of a random number, a time stamp and the complementary flag.
  type Hmac = (RandNum, nat, bool) -> Data

  datatype Cookie = Cookie(rand: RandNum, hash: Data)

  ghost predicate NoCollisions(hmac: Hmac) {
    forall r, s, c, r', s', c' :: hmac(r, s, c) == hmac(r', s', c') ==> r == r' && s == s' && c == c'
  }

  // Whole periods of EMI_P2P_COOKIE_RESOLUTION seconds.
  function Stamp(t: real): (n: nat)
    requires t >= 0.0
  {
    (t / 300.0).Floor
  }

  // 64 bit unsigned arithmetic
  function HashStamp(t: real, minusOne: bool): nat
    requires t >= 0.0
  {
    (Stamp(t) + TWO_64 - (if minusOne then 1 else 0)) % TWO_64
  }

  function MakeCookie(hmac: Hmac, stamp: real, rand: RandNum, complementary: bool): Cookie
    requires stamp >= 0.0
  {
    Cookie(rand, hmac(rand, HashStamp(stamp, false), complementary))
  }

  predicate CheckFlag(hmac: Hmac, now: real, complementary: bool, cookie: Cookie)
    requires now >= 0.0
  {
    || cookie.hash == hmac(cookie.rand, HashStamp(now, false), complementary)
    || cookie.hash == hmac(cookie.rand, HashStamp(now, true), complementary)
  }

  // The complementary flag of a valid cookie.
  function CheckCookie(hmac: Hmac, now: real, cookie: Cookie): Option<bool>
    requires now >= 0.0
  {
    if CheckFlag(hmac, now, false, cookie) then Some(false)
    else if CheckFlag(hmac, now, true, cookie) then Some(true)
    else None
  }

  // A cookie is good in the period it was made in and in the next one.
  lemma CookieLifetime(hmac: Hmac, made: real, now: real, rand: RandNum, complementary: bool)
    requires NoCollisions(hmac) && 0.0 <= made <= now && Stamp(now) < TWO_64 - 1
    ensures CheckCookie(hmac, now, MakeCookie(hmac, made, rand, complementary))
         == if Stamp(now) - Stamp(made) <= 1 then Some(complementary) else None
    ensures now - made < 300.0 ==> Stamp(now) - Stamp(made) <= 1
    ensures now - made >= 600.0 ==> Stamp(now) - Stamp(made) > 1
  {
    assert made / 300.0 <= now / 300.0;
    assert Stamp(made) <= Stamp(now);
    assert HashStamp(made, false) == Stamp(made) && HashStamp(now, false) == Stamp(now);
    assert HashStamp(now, true) == if Stamp(now) == 0 then TWO_64 - 1 else Stamp(now) - 1;
    var h := hmac(rand, Stamp(made), complementary);
    assert h == hmac(rand, Stamp(now), complementary) <==> Stamp(made) == Stamp(now);
    assert h != hmac(rand, Stamp(now), !complementary) && h != hmac(rand, HashStamp(now, true), !complementary);
  }

  // ----- one connection between two peers

  // A SYN-RST to a peer, with the initial number of the other one.
  datatype SynRst = SynRst(to: Address, otherInitialSn: nat)

  class P2PConn {
    const cookie: RandNum
    const firstPeerHadComplementaryCookie: bool
    const rateLimit: nat
    var peers: seq<Address>
    var innerEndpoints: seq<Address>
    var waitingForPrxAck: seq<bool>
    var initialSequenceNumbers: seq<nat>
    var bytesSent: nat                  // since the last rate limit timeout
    var synRsts: seq<SynRst>            // what sendSynRst has sent
    ghost var secondCookie: Option<(RandNum, bool)>   // what the second peer presented
    ghost var forwarded: nat            // bytes passed on since the last timeout

    ghost predicate Valid()
      reads this
    {
      && |peers| == |innerEndpoints| == |waitingForPrxAck| == |initialSequenceNumbers| == 2
      && peers[0] != Nil && peers[0] != peers[1]
      // Two joined peers presented the same number with opposite flags.
      && (peers[1] == Nil <==> secondCookie == None)
      && (peers[1] != Nil ==> secondCookie == Some((cookie, !firstPeerHadComplementaryCookie)))
      // The rate limit is never exceeded.
      && (rateLimit > 0 ==> forwarded <= rateLimit && forwarded <= bytesSent)
    }

    constructor (cookie: RandNum, complementary: bool, firstPeer: Address, sn: nat, rateLimit: nat)
      requires firstPeer != Nil
      ensures Valid() && peers == [firstPeer, Nil] && this.cookie == cookie
      ensures firstPeerHadComplementaryCookie == complementary && initialSequenceNumbers == [sn, 0]
      ensures this.rateLimit == rateLimit && bytesSent == 0 && forwarded == 0 && synRsts == []
      ensures innerEndpoints == [Nil, Nil] && waitingForPrxAck == [false, false]
    {
      this.cookie, firstPeerHadComplementaryCookie, this.rateLimit := cookie, complementary, rateLimit;
      peers, innerEndpoints := [firstPeer, Nil], [Nil, Nil];
      waitingForPrxAck, initialSequenceNumbers := [false, false], [sn, 0];
      bytesSent, forwarded, secondCookie, synRsts := 0, 0, None, [];
    }

    function SynRstTo(i: nat): SynRst
      requires |peers| == |initialSequenceNumbers| == 2 && i < 2
      reads this
    {
      SynRst(peers[i], initialSequenceNumbers[1 - i])
    }

    method SendSynRst(i: nat)
      requires Valid() && i < 2
      modifies this`synRsts
      ensures Valid() && synRsts == old(synRsts) + [SynRstTo(i)]
    {
      var otherHostSn := initialSequenceNumbers[if i == 0 then 1 else 0];
      synRsts := synRsts + [SynRst(peers[i], otherHostSn)];
    }

    // Sends the SYN-RSTs again that have not been answered.
    method RtoTimeout()
      requires Valid()
      modifies this`synRsts
      ensures Valid()
      ensures synRsts == old(synRsts)
        + (if waitingForPrxAck[0] then [SynRstTo(0)] else []) + (if waitingForPrxAck[1] then [SynRstTo(1)] else [])
    {
      if waitingForPrxAck[0] {
        SendSynRst(0);
      }
      if waitingForPrxAck[1] {
        SendSynRst(1);
      }
    }

    // 2 stands for -1.
    function AddressIndex(a: Address): (i: nat)
      requires |peers| == 2
      reads this
      ensures i <= 2 && (i < 2 ==> peers[i] == a) && (i < 2 <==> a in peers)
    {
      if peers[0] == a then 0 else if peers[1] == a then 1 else 2
    }

    function InitialSequenceNumberMismatch(a: Address, sn: nat): bool
      requires |peers| == |initialSequenceNumbers| == 2
      reads this
    {
      var i := AddressIndex(a);
      i == 2 || initialSequenceNumbers[i] != sn
    }

    // The second peer turns up, having presented the random number rand. Each
    // peer is told the initial number of the other.
    method GotOtherAddress(remote: Address, sn: nat, ghost rand: RandNum, complementary: bool)
      requires Valid() && peers[1] == Nil && remote != Nil && remote != peers[0]
      requires rand == cookie && complementary != firstPeerHadComplementaryCookie
      modifies this`peers, this`initialSequenceNumbers, this`waitingForPrxAck, this`secondCookie, this`synRsts
      ensures Valid() && peers == [old(peers)[0], remote]
      ensures initialSequenceNumbers == [old(initialSequenceNumbers)[0], sn] && waitingForPrxAck == [true, true]
      ensures secondCookie == Some((rand, complementary))
      ensures synRsts == old(synRsts) + [SynRst(peers[0], sn), SynRst(remote, old(initialSequenceNumbers)[0])]
    {
      peers := peers[1 := remote];
      initialSequenceNumbers := initialSequenceNumbers[1 := sn];
      waitingForPrxAck := [true, true];
      secondCookie := Some((rand, complementary));
      SendSynRst(0);
      SendSynRst(1);
    }

    method GotInnerAddress(address: Address, inner: Address)
      requires Valid() && address in peers
      modifies this`innerEndpoints, this`waitingForPrxAck
      ensures Valid()
      ensures innerEndpoints == old(innerEndpoints)[AddressIndex(address) := inner]
      ensures waitingForPrxAck == old(waitingForPrxAck)[AddressIndex(address) := false]
    {
      var i := AddressIndex(address);
      innerEndpoints := innerEndpoints[i := inner];
      waitingForPrxAck := waitingForPrxAck[i := false];
    }

    // Passes a packet on to the other peer, if there is one and the rate
    // limit allows it.
    method ForwardPacket(remote: Address, len: nat) returns (to: Option<Address>)
      requires Valid() && remote != Nil
      modifies this`bytesSent, this`forwarded
      ensures Valid()
      ensures to.Some? ==> remote in peers && to.value in peers && to.value != remote && to.value != Nil
      ensures to.Some? <==>
        remote in peers && peers[1] != Nil && (rateLimit == 0 || old(bytesSent) + len <= rateLimit)
      ensures forwarded == old(forwarded) + if to.Some? then len else 0
      // What the limit holds back counts against it as well.
      ensures bytesSent == old(bytesSent) + if remote in peers && peers[1] != Nil && rateLimit > 0 then len else 0
    {
      var i := AddressIndex(remote);
      if i == 2 {
        return None;
      }
      var other := if i == 0 then 1 else 0;
      if peers[other] == Nil {
        return None;
      }
      if rateLimit > 0 {
        bytesSent := bytesSent + len;
        if bytesSent > rateLimit {
          return None;
        }
      }
      forwarded := forwarded + len;
      to := Some(peers[other]);
    }

    method RateLimitTimeout()
      requires Valid()
      modifies this`bytesSent, this`forwarded
      ensures Valid() && bytesSent == 0 && forwarded == 0
    {
      bytesSent, forwarded := 0, 0;
    }
  }

  // ----- the mediator

  class P2PSock {
    const hmac: Hmac
    const rateLimit: nat
    var conns: map<Address, P2PConn>
    var connCookies: map<RandNum, P2PConn>
    ghost var live: set<P2PConn>        // created and not deleted

    // Both maps refer to live connections only.
    ghost predicate ConnsOk()
      reads this, live
    {
      forall a | a in conns ::
        && conns[a] in live && a != Nil
        && |conns[a].peers| == 2 && (a == conns[a].peers[0] || a == conns[a].peers[1])
    }

    // A live connection is listed under each of its addresses.
    ghost predicate AllListed()
      reads this, live
    {
      forall c | c in live :: |c.peers| == 2 && Listed(c, c.peers[0]) && (c.peers[1] == Nil || Listed(c, c.peers[1]))
    }

    // A cookie is kept for connections that wait for their second peer.
    ghost predicate CookiesOk()
      reads this, live
    {
      forall r | r in connCookies ::
        && connCookies[r] in live && connCookies[r].cookie == r
        && |connCookies[r].peers| == 2 && connCookies[r].peers[1] == Nil
    }

    ghost predicate Valid()
      reads this, live
    {
      && (forall c | c in live :: c.Valid() && c.rateLimit == rateLimit)
      && ConnsOk() && AllListed() && CookiesOk()
    }

    // Every live connection that waits for its second peer stands under its
    // cookie, where that peer finds it.
    ghost predicate Waiting()
      reads this, live
    {
      forall c | c in live && |c.peers| == 2 && c.peers[1] == Nil :: Findable(c)
    }

    ghost predicate Findable(c: P2PConn)
      reads this
    {
      c.cookie in connCookies && connCookies[c.cookie] == c
    }

    // No other connection stands under the number of conn.
    ghost predicate OwnsCookie(conn: P2PConn)
      reads this
    {
      conn.cookie in connCookies ==> connCookies[conn.cookie] == conn
    }

    // No two live connections have the same number.
    ghost predicate Distinct()
      reads this, live
    {
      forall c, d | c in live && d in live && c.cookie == d.cookie :: c == d
    }

    ghost predicate Listed(c: P2PConn, a: Address)
      reads this
    {
      a in conns && conns[a] == c
    }

    constructor (hmac: Hmac, rateLimit: nat)
      ensures Valid() && live == {} && conns == map[] && connCookies == map[]
      ensures Waiting() && Distinct() && this.hmac == hmac && this.rateLimit == rateLimit
    {
      this.hmac, this.rateLimit := hmac, rateLimit;
      conns, connCookies, live := map[], map[], {};
    }

    // No connection forwards more than the limit between two of its timeouts.
    lemma WithinLimit(c: P2PConn)
      requires Valid() && c in live && rateLimit > 0
      ensures c.forwarded <= rateLimit
    {
    }

    // A connection is listed under exactly its peers' addresses.
    lemma ListedUnderPeers(c: P2PConn, a: Address)
      requires Valid() && c in live
      ensures a in conns && conns[a] == c <==> a in c.peers && a != Nil
    {
    }

    // Another connection stands under the number exactly when two peers have
    // joined and the number has been used again. As long as numbers are distinct
    // that is not so.
    lemma OwnsUnlessReused(conn: P2PConn)
      requires Valid() && conn in live
      ensures Waiting() ==> (OwnsCookie(conn) <==> conn.peers[1] == Nil || conn.cookie !in connCookies)
      ensures Distinct() ==> OwnsCookie(conn)
    {
      hide P2PConn.Valid;
      assert |conn.peers| == 2;
    }

    // The connection's addresses go, and whatever stands under its number. So a
    // connection that waits can still be found afterwards if and only if no
    // other one stood there.
    method RemoveConnection(conn: P2PConn)
      requires Valid() && conn in live
      modifies this
      ensures Valid() && live == old(live) - {conn}
      ensures conns == old(conns) - {conn.peers[0], conn.peers[1]}
      ensures connCookies == old(connCookies) - {conn.cookie}
      ensures old(Waiting()) ==> (Waiting() <==> old(OwnsCookie(conn)))
      ensures old(Distinct()) ==> Distinct()
    {
      hide P2PConn.Valid, Waiting, OwnsCookie, Distinct;
      conns := conns - {conn.peers[0], conn.peers[1]};
      connCookies := connCookies - {conn.cookie};
      live := live - {conn};
      forall a | a in conns
        ensures conns[a] in live
      {
        assert conn.peers[0] != a && conn.peers[1] != a;
      }
      Removed(conn);
    }

    twostate lemma Removed(conn: P2PConn)
      requires old(CookiesOk()) && conn in old(live) && live == old(live) - {conn}
      requires connCookies == old(connCookies) - {conn.cookie}
      requires forall c | c in old(live) :: c.peers == old(c.peers)
      ensures old(Waiting()) ==> (Waiting() <==> old(OwnsCookie(conn)))
      ensures old(Distinct()) ==> Distinct()
    {
      if conn.cookie in old(connCookies) {
        var other := old(connCookies)[conn.cookie];
        assert other != conn ==> other in live && !Findable(other);
      }
    }

    // SYN with a cookie. Returns the connection that answers with PRX.
    method GotConnectionOpen(now: real, sn: nat, cookie: Cookie, remote: Address) returns (conn: P2PConn?)
      requires Valid() && now >= 0.0 && remote != Nil
      modifies this, live
      ensures Valid() && fresh(live - old(live))
      ensures CheckCookie(hmac, now, cookie).None? ==>
        conn == null && conns == old(conns) && connCookies == old(connCookies) && live == old(live)
      // A known peer that starts again with another number loses its old connection first.
      ensures CheckCookie(hmac, now, cookie).Some? ==>
        var known := remote in old(conns) && !old(conns[remote].InitialSequenceNumberMismatch(remote, sn));
        var stale := remote in old(conns) && !known;
        var conns0 := old(conns)
          - if stale then {old(conns[remote].peers[0]), old(conns[remote].peers[1])} else {};
        var cookies0 := if stale then old(connCookies) - {old(conns)[remote].cookie} else old(connCookies);
        var live0 := if stale then old(live) - {old(conns)[remote]} else old(live);
        var first := cookie.rand !in cookies0;
        if known
        then
          && conn == old(conns)[remote] && unchanged(conn)
          && conns == old(conns) && connCookies == old(connCookies) && live == old(live)
        else if !first && cookies0[cookie.rand].firstPeerHadComplementaryCookie == CheckCookie(hmac, now, cookie).value
        then conn == null && conns == conns0 && connCookies == cookies0 && live == live0
        else
          && conn != null && conns == conns0[remote := conn] && conn.cookie == cookie.rand
          && (if first
              then
                && fresh(conn) && live == live0 + {conn} && connCookies == cookies0[cookie.rand := conn]
                && conn.peers == [remote, Nil]
                && conn.firstPeerHadComplementaryCookie == CheckCookie(hmac, now, cookie).value
              else
                && conn == cookies0[cookie.rand] && connCookies == cookies0 - {cookie.rand} && live == live0
                && conn.peers == [old(connCookies[cookie.rand].peers[0]), remote])
      ensures forall c | c in old(live) && c != conn :: unchanged(c)
      // Whoever waits can be found as before, unless a connection that is
      // removed had its number in use by another.
      ensures old(Waiting()) ==>
        (Waiting() <==>
           !(&& CheckCookie(hmac, now, cookie).Some? && remote in old(conns)
             && old(conns[remote].InitialSequenceNumberMismatch(remote, sn) && !OwnsCookie(conns[remote]))))
      // Numbers stay distinct unless a connection is opened with one that is in use.
      ensures old(Distinct()) ==>
        (Distinct() <==>
           !(conn != null && fresh(conn) && exists c :: c in old(live) && c in live && c.cookie == cookie.rand))
      // The answer is sent to an address of the connection.
      ensures conn != null ==> conn in live && remote in conns && conns[remote] == conn && remote in conn.peers
      ensures conn != null ==> !conn.InitialSequenceNumberMismatch(remote, sn)
    {
      hide CheckCookie, ConnsOk, CookiesOk, AllListed, P2PConn.Valid, Waiting, OwnsCookie, Distinct;
      var complementary := CheckCookie(hmac, now, cookie);
      if complementary.None? {
        return null;
      }
      conn := DropStale(remote, sn);
      if conn == null {
        conn := JoinOrCreate(sn, cookie.rand, complementary.value, remote);
      }
    }

    // The peer's connection. If the peer has forgotten about it and starts again
    // with another initial number, the connection is removed.
    method DropStale(remote: Address, sn: nat) returns (conn: P2PConn?)
      requires Valid()
      modifies this
      ensures Valid() && live <= old(live)
      ensures if remote in old(conns) && !old(conns[remote].InitialSequenceNumberMismatch(remote, sn))
              then conn == old(conns)[remote] && conn in live && remote in conn.peers
              else conn == null && remote !in conns
      ensures if conn == null && remote in old(conns)
              then
                && conns == old(conns) - {old(conns[remote].peers[0]), old(conns[remote].peers[1])}
                && connCookies == old(connCookies) - {old(conns)[remote].cookie}
                && live == old(live) - {old(conns)[remote]}
                && (old(Waiting()) ==> (Waiting() <==> old(OwnsCookie(conns[remote]))))
              else unchanged(this)
      ensures old(Distinct()) ==> Distinct()
    {
      hide Waiting, Distinct;
      conn := if remote in conns then conns[remote] else null;
      if conn != null && conn.InitialSequenceNumberMismatch(remote, sn) {
        RemoveConnection(conn);
        conn := null;
      }
    }

    // A peer that is not connected presents a valid cookie: it is the second
    // one to present this number, or the first.
    method JoinOrCreate(sn: nat, rand: RandNum, complementary: bool, remote: Address) returns (conn: P2PConn?)
      requires Valid() && remote != Nil && remote !in conns
      modifies this, live
      ensures Valid() && fresh(live - old(live)) && old(live) <= live
      ensures conn == null <==>
        rand in old(connCookies) && old(connCookies)[rand].firstPeerHadComplementaryCookie == complementary
      ensures conn == null ==> conns == old(conns) && connCookies == old(connCookies) && live == old(live)
      ensures conn != null ==>
        && conn in live && conns == old(conns)[remote := conn] && remote in conn.peers
        && !conn.InitialSequenceNumberMismatch(remote, sn)
        && (if rand in old(connCookies)
            then
              && conn == old(connCookies)[rand] && connCookies == old(connCookies) - {rand} && live == old(live)
              && conn.peers == [old(connCookies[rand].peers[0]), remote]
            else
              && fresh(conn) && connCookies == old(connCookies)[rand := conn] && live == old(live) + {conn}
              && conn.peers == [remote, Nil] && conn.firstPeerHadComplementaryCookie == complementary)
        && conn.cookie == rand
      ensures forall c | c in old(live) && c != conn :: unchanged(c)
      // Whoever waits can be found as before.
      ensures Waiting() <==> old(Waiting())
      ensures old(Distinct()) ==>
        (Distinct() <==> rand in old(connCookies) || forall c | c in old(live) :: c.cookie != rand)
    {
      hide P2PConn.Valid, Waiting, ConnsOk, AllListed;
      if rand in connCookies {
        conn := connCookies[rand];
        if conn.firstPeerHadComplementaryCookie == complementary {
          // The same cookie from another address: ignored.
          return null;
        }
        Join(conn, sn, rand, complementary, remote);
      } else {
        conn := Create(sn, rand, complementary, remote);
      }
    }

    method Join(conn: P2PConn, sn: nat, rand: RandNum, complementary: bool, remote: Address)
      requires Valid() && remote != Nil && remote !in conns
      requires rand in connCookies && conn == connCookies[rand]
      requires conn.firstPeerHadComplementaryCookie != complementary
      modifies this`conns, this`connCookies, conn
      ensures Valid() && conns == old(conns)[remote := conn]
      // The cookie is not needed any more.
      ensures connCookies == old(connCookies) - {rand}
      ensures conn.peers == [old(conn.peers)[0], remote] && !conn.InitialSequenceNumberMismatch(remote, sn)
      ensures conn.synRsts == old(conn.synRsts)
        + [SynRst(conn.peers[0], sn), SynRst(remote, old(conn.initialSequenceNumbers)[0])]
      ensures Waiting() <==> old(Waiting())
    {
      hide P2PConn.Valid, Waiting;
      assert conn.Valid() && Listed(conn, conn.peers[0]);
      connCookies := connCookies - {rand};
      assert forall r | r in connCookies :: connCookies[r].cookie == r && connCookies[r] != conn;
      AddPeer(conn, sn, rand, complementary, remote);
      Joined(conn);
    }

    twostate lemma Joined(conn: P2PConn)
      requires old(CookiesOk()) && conn in live && old(Findable(conn))
      requires connCookies == old(connCookies) - {conn.cookie} && live == old(live)
      requires |conn.peers| == 2 && conn.peers[1] != Nil
      requires forall c | c in live && c != conn :: c.peers == old(c.peers)
      ensures Waiting() <==> old(Waiting())
    {
      forall c | c in live && c != conn
        ensures Findable(c) <==> old(Findable(c))
      {
      }
    }

    // The other peer of a connection that is under no cookie any more.
    method AddPeer(conn: P2PConn, sn: nat, ghost rand: RandNum, complementary: bool, remote: Address)
      requires Valid() && remote != Nil && remote !in conns
      requires conn in live && conn.peers[1] == Nil && remote != conn.peers[0]
      requires rand == conn.cookie && conn.firstPeerHadComplementaryCookie != complementary
      requires forall r | r in connCookies :: connCookies[r] != conn
      modifies this`conns, conn
      ensures Valid() && conns == old(conns)[remote := conn]
      ensures conn.peers == [old(conn.peers)[0], remote] && !conn.InitialSequenceNumberMismatch(remote, sn)
      ensures conn.synRsts == old(conn.synRsts)
        + [SynRst(conn.peers[0], sn), SynRst(remote, old(conn.initialSequenceNumbers)[0])]
    {
      hide P2PConn.Valid;
      conn.GotOtherAddress(remote, sn, rand, complementary);
      conns := conns[remote := conn];
      assert forall c | c in live && c != conn :: c.peers == old(c.peers);
      assert ConnsOk() by {
        forall a | a in conns && a != remote
          ensures conns[a] in live && (a == conns[a].peers[0] || a == conns[a].peers[1])
        {
          assert a == old(conns[a].peers[0]) || a == old(conns[a].peers[1]);
        }
      }
      assert AllListed() by {
        forall c | c in live && c != conn
          ensures Listed(c, c.peers[0]) && (c.peers[1] == Nil || Listed(c, c.peers[1]))
        {
          assert old(Listed(c, c.peers[0])) && old(c.peers[1] == Nil || Listed(c, c.peers[1]));
        }
      }
    }

    method Create(sn: nat, rand: RandNum, complementary: bool, remote: Address) returns (conn: P2PConn)
      requires Valid() && remote != Nil && remote !in conns && rand !in connCookies
      modifies this
      ensures Valid() && fresh(conn) && live == old(live) + {conn} && conns == old(conns)[remote := conn]
      ensures connCookies == old(connCookies)[rand := conn]
      ensures conn.peers == [remote, Nil] && !conn.InitialSequenceNumberMismatch(remote, sn)
      ensures conn.cookie == rand && conn.firstPeerHadComplementaryCookie == complementary
      ensures Waiting() <==> old(Waiting())
      ensures old(Distinct()) ==> (Distinct() <==> forall c | c in old(live) :: c.cookie != rand)
    {
      hide P2PConn.Valid, Waiting, Distinct;
      conn := new P2PConn(rand, complementary, remote, sn, rateLimit);
      connCookies := connCookies[rand := conn];
      live := live + {conn};
      conns := conns[remote := conn];
      assert AllListed() by {
        forall c | c in live && c != conn
          ensures Listed(c, c.peers[0]) && (c.peers[1] == Nil || Listed(c, c.peers[1]))
        {
          assert old(Listed(c, c.peers[0])) && old(c.peers[1] == Nil || Listed(c, c.peers[1]));
        }
      }
      Created(conn);
    }

    twostate lemma Created(new conn: P2PConn)
      requires old(CookiesOk()) && conn.cookie !in old(connCookies) && conn !in old(live)
      requires connCookies == old(connCookies)[conn.cookie := conn] && live == old(live) + {conn}
      requires forall c | c in old(live) :: c.peers == old(c.peers)
      ensures Waiting() <==> old(Waiting())
      ensures old(Distinct()) ==> (Distinct() <==> forall c | c in old(live) :: c.cookie != conn.cookie)
    {
      if Waiting() {
        forall c | c in old(live) && old(|c.peers| == 2 && c.peers[1] == Nil)
          ensures old(Findable(c))
        {
          assert Findable(c);
        }
      }
    }

    // PRX-ACK with the peer's inner address, which is None if the message has the
    // wrong length. Returns whether both are known.
    method GotConnectionOpenAck(remote: Address, sn: nat, inner: Option<Address>) returns (both: bool)
      requires Valid()
      modifies live
      ensures Valid()
      ensures if inner.Some? && remote in conns && !old(conns[remote].InitialSequenceNumberMismatch(remote, sn))
              then var c, i := conns[remote], old(conns[remote].AddressIndex(remote));
                   && i < 2 && c.innerEndpoints == old(c.innerEndpoints)[i := inner.value]
                   && c.waitingForPrxAck == old(c.waitingForPrxAck)[i := false]
                   && both == (Nil !in c.innerEndpoints)
              else unchanged(live) && !both
      ensures Waiting() <==> old(Waiting())
    {
      both := false;
      if inner.Some? && remote in conns && !conns[remote].InitialSequenceNumberMismatch(remote, sn) {
        var conn := conns[remote];
        conn.GotInnerAddress(remote, inner.value);
        both := conn.innerEndpoints[0] != Nil && conn.innerEndpoints[1] != Nil;
      }
    }

    // A data packet, a heartbeat or an RST.
    method GotPacket(remote: Address, len: nat) returns (to: Option<Address>)
      requires Valid()
      modifies live
      ensures Valid() && (Waiting() <==> old(Waiting()))
      // It goes to the peer that the sender was joined with, or nowhere.
      ensures to.Some? ==>
        remote in conns && to.value in conns && conns[to.value] == conns[remote] && to.value != remote
      ensures to.Some? <==>
        && remote in conns && conns[remote].peers[1] != Nil
        && (rateLimit == 0 || old(conns[remote].bytesSent) + len <= rateLimit)
      // What it holds back counts against the limit as well; other connections do not.
      ensures forall c | c in live ::
        && c.bytesSent == old(c.bytesSent)
             + (if remote in conns && c == conns[remote] && c.peers[1] != Nil && rateLimit > 0 then len else 0)
        && c.forwarded == old(c.forwarded) + (if to.Some? && c == conns[remote] then len else 0)
    {
      to := None;
      if remote in conns {
        var conn := conns[remote];
        to := conn.ForwardPacket(remote, len);
        if to.Some? {
          ListedUnderPeers(conn, to.value);
        }
      }
    }

    // The connection of the peer, if it had one, has left both maps, and with it
    // whatever stood under its number.
    twostate predicate Forgotten(remote: Address)
      requires old(Valid())
      reads this, live
    {
      if remote in old(conns) then
        var conn := old(conns)[remote];
        && live == old(live) - {conn}
        && conns == old(conns) - {old(conn.peers)[0], old(conn.peers)[1]}
        && connCookies == old(connCookies) - {conn.cookie}
        && (old(Waiting()) ==> (Waiting() <==> old(OwnsCookie(conn))))
      else
        && live == old(live) && conns == old(conns) && connCookies == old(connCookies)
        && (Waiting() <==> old(Waiting()))
    }

    // SYN-RST-ACK: the connection is closed on both sides.
    method GotSynRstAck(remote: Address, len: nat) returns (to: Option<Address>)
      requires Valid()
      modifies this, live
      ensures Valid() && Forgotten(remote)
      // The other peer is told first, if there is one and the rate limit allows it.
      ensures to.Some? ==> remote in old(conns) && to.value in old(conns[remote].peers) && to.value != remote
      ensures to.Some? <==>
        && remote in old(conns) && old(conns[remote].peers[1]) != Nil
        && (rateLimit == 0 || old(conns[remote].bytesSent) + len <= rateLimit)
    {
      to := None;
      if remote in conns {
        var conn := conns[remote];
        to := conn.ForwardPacket(remote, len);
        RemoveConnection(conn);
      }
    }

    // PRX-RST: forget about the connection. Whether there is one or not, the
    // peer gets a PRX-RST-ACK.
    method GotPrxRst(remote: Address) returns (prxRstAckTo: Address)
      requires Valid()
      modifies this
      ensures Valid() && Forgotten(remote) && prxRstAckTo == remote
    {
      prxRstAckTo := remote;
      if remote in conns {
        RemoveConnection(conns[remote]);
      }
    }

    method ConnectionTimeout(conn: P2PConn)
      requires Valid() && conn in live
      modifies this
      ensures Valid() && live == old(live) - {conn}
      ensures conns == old(conns) - {conn.peers[0], conn.peers[1]} && connCookies == old(connCookies) - {conn.cookie}
      ensures old(Waiting()) ==> (Waiting() <==> old(OwnsCookie(conn)))
    {
      RemoveConnection(conn);
    }
  }

  // The two cookies of a pair, both good.
  predicate IsPair(hmac: Hmac, now: real, first: Cookie, second: Cookie)
    requires now >= 0.0
  {
    && first.rand == second.rand
    && CheckCookie(hmac, now, first) == Some(false) && CheckCookie(hmac, now, second) == Some(true)
  }

  // Two peers join, and the SYN of the first one arrives again from another
  // address: that opens a connection under the same number.
  method ReuseNumber(hmac: Hmac, now: real, first: Cookie, second: Cookie, sn: nat, a: Address, b: Address, d: Address)
    returns (sock: P2PSock, joined: P2PConn, waiting: P2PConn)
    requires now >= 0.0 && IsPair(hmac, now, first, second)
    requires Nil !in {a, b, d} && a != b && a != d && b != d
    ensures fresh(sock) && fresh(sock.live) && sock.Valid() && sock.hmac == hmac
    ensures sock.live == {joined, waiting} && joined != waiting
    ensures sock.conns == map[a := joined, b := joined, d := waiting]
    ensures sock.connCookies == map[first.rand := waiting] && joined.cookie == waiting.cookie == first.rand
    ensures joined.peers == [a, b] && waiting.peers == [d, Nil] && !waiting.firstPeerHadComplementaryCookie
  {
    hide CheckCookie, P2PConn.Valid, P2PSock.Valid, P2PSock.Distinct, P2PSock.Waiting;
    sock := new P2PSock(hmac, 0);
    var conn := sock.GotConnectionOpen(now, sn, first, a);
    joined := conn;
    conn := sock.GotConnectionOpen(now, sn, second, b);
    assert conn == joined && joined.peers == [a, b];
    conn := sock.GotConnectionOpen(now, sn, first, d);
    waiting := conn;
  }

  // So a waiting peer can be lost, in a run from the start: when the two peers
  // that joined disconnect, the connection under the same number is still
  // there, but its second peer does not find it and opens one of its own.
  method LostPeer(hmac: Hmac, now: real, first: Cookie, second: Cookie, sn: nat,
                  a: Address, b: Address, d: Address, e: Address)
    returns (sock: P2PSock, waiting: P2PConn, later: P2PConn?)
    requires now >= 0.0 && IsPair(hmac, now, first, second)
    requires Nil !in {a, b, d, e} && a != b && a != d && a != e && b != d && b != e && d != e
    ensures sock.Valid() && !sock.Waiting()
    ensures waiting in sock.live && waiting.cookie == first.rand && waiting.peers == [d, Nil]
    ensures later != null && later in sock.live && later.cookie == first.rand && later.peers == [e, Nil]
    ensures waiting.firstPeerHadComplementaryCookie != later.firstPeerHadComplementaryCookie
  {
    hide CheckCookie, P2PConn.Valid, P2PSock.Valid, P2PSock.Distinct;
    var joined;
    sock, joined, waiting := ReuseNumber(hmac, now, first, second, sn, a, b, d);
    var answered := sock.GotPrxRst(a);
    assert !sock.Findable(waiting);
    later := sock.GotConnectionOpen(now, sn, second, e);
  }
}
