/** The Internet checksum of net/stack.c, and the echo reply that carries it. */
module InetChecksum {
  import opened Bytes

  const MAX16 := 0xFFFF

  function Join(high: nat, low: nat): nat { 256 * high + low }

  /** Section 1 of RFC 1071: sixteen-bit words in network order, a last odd byte padded with zero. */
  function Words(s: seq<Byte>): (r: seq<nat>) {
    if s == [] then []
    else if |s| == 1 then [Join(s[0], 0)]
    else [Join(s[0], s[1])] + Words(s[2..])
  }

  /** The pseudo-header's words: a last odd byte does not take part. */
  function Pairs(s: seq<Byte>): (r: seq<nat>) {
    if |s| < 2 then [] else [Join(s[0], s[1])] + Pairs(s[2..])
  }

  /** Word `k` of a message is its bytes 2k and 2k + 1, the first one high, with zero for a missing last byte. */
  lemma {:induction false} WordsAre(s: seq<Byte>, k: nat)
    ensures |Words(s)| == (|s| + 1) / 2
    ensures 2 * k < |s| ==> Words(s)[k] == 0x100 * s[2 * k] as int + (if 2 * k + 1 < |s| then s[2 * k + 1] as int else 0)
    decreases |s|
  {
    if |s| >= 2 {
      WordsAre(s[2..], if k == 0 then 0 else k - 1);
    }
  }

  lemma {:induction false} PairsAre(s: seq<Byte>, k: nat)
    ensures |Pairs(s)| == |s| / 2
    ensures 2 * k + 1 < |s| ==> Pairs(s)[k] == 0x100 * s[2 * k] as int + s[2 * k + 1] as int
    decreases |s|
  {
    if |s| >= 2 {
      PairsAre(s[2..], if k == 0 then 0 else k - 1);
    }
  }

  /** Ones'-complement addition: the carry comes back in at the end. */
  function OnesAdd(a: nat, b: nat): (r: nat)
    requires a <= MAX16 && b <= MAX16
    ensures r <= MAX16
  {
    if a + b > MAX16 then a + b - MAX16 else a + b
  }

  ghost predicate Fits(ws: seq<nat>) { forall i :: 0 <= i < |ws| ==> ws[i] <= MAX16 }

  /** The reference: ones'-complement sum, word by word. */
  ghost function OnesSum(ws: seq<nat>): (r: nat)
    requires Fits(ws)
    ensures r <= MAX16
  {
    if ws == [] then 0 else OnesAdd(ws[0], OnesSum(ws[1..]))
  }

  function Total(ws: seq<nat>): (r: nat) {
    if ws == [] then 0 else ws[0] + Total(ws[1..])
  }

  /** The ones'-complement value of a plain total: casting out 65535s, but not down to zero. */
  function Canon(t: nat): (r: nat)
    ensures r <= MAX16 && r <= t && (r == 0 <==> t == 0)
  {
    if t <= MAX16 then t else Canon(t - MAX16)
  }

  /** The remainder by 65535, with 65535 for a nonzero multiple. */
  lemma {:induction false} CanonIs(t: nat)
    ensures Canon(t) == if t == 0 then 0 else (t - 1) % MAX16 + 1
  {
    if t > MAX16 {
      CanonIs(t - MAX16);
      assert (t - 1 - MAX16) % MAX16 == (t - 1) % MAX16;
    }
  }

  // ---------------- totals and ones'-complement sums ----------------

  lemma {:induction false} OnesAddCanon(a: nat, t: nat)
    requires a <= MAX16
    ensures OnesAdd(a, Canon(t)) == Canon(a + t)
  {
    if t > MAX16 {
      OnesAddCanon(a, t - MAX16);
    }
  }

  /** Adding up plainly and folding at the end is the word-by-word sum. */
  lemma {:induction false} OnesSumIsCanon(ws: seq<nat>)
    requires Fits(ws)
    ensures OnesSum(ws) == Canon(Total(ws))
  {
    hide Canon;
    if ws == [] {
      CanonZero();
    } else {
      OnesSumIsCanon(ws[1..]);
      OnesAddCanon(ws[0], Total(ws[1..]));
    }
  }

  lemma CanonZero()
    ensures Canon(0) == 0
  {
  }

  lemma {:induction false} CanonCast(x: nat, k: nat)
    requires x > 0 || k == 0
    ensures Canon(x + MAX16 * k) == Canon(x)
  {
    if k > 0 {
      CanonCast(x, k - 1);
      assert x + MAX16 * k - MAX16 == x + MAX16 * (k - 1);
    }
  }

  /** One turn of the fold loop keeps the ones'-complement value and shrinks the sum. */
  lemma FoldStep(s: nat)
    requires s > MAX16
    ensures s % 0x1_0000 + s / 0x1_0000 < s && Canon(s % 0x1_0000 + s / 0x1_0000) == Canon(s)
  {
    hide Canon;
    CanonCast(s % 0x1_0000 + s / 0x1_0000, s / 0x1_0000);
  }

  lemma {:induction false} TotalAppend(a: seq<nat>, b: seq<nat>)
    ensures Total(a + b) == Total(a) + Total(b)
  {
    if a == [] {
      assert a + b == b;
    } else {
      assert (a + b)[1..] == a[1..] + b;
      TotalAppend(a[1..], b);
    }
  }

  /** Every word fits sixteen bits, so the total of n words is at most 65535 n. */
  lemma {:induction false} WordsFit(s: seq<Byte>)
    ensures Fits(Words(s)) && 2 * Total(Words(s)) <= MAX16 * (|s| + 1)
    decreases |s|
  {
    if |s| >= 2 {
      WordsFit(s[2..]);
      assert Words(s)[1..] == Words(s[2..]);
    }
  }

  lemma {:induction false} PairsFit(s: seq<Byte>)
    ensures Fits(Pairs(s)) && 2 * Total(Pairs(s)) <= MAX16 * |s|
    decreases |s|
  {
    if |s| >= 2 {
      PairsFit(s[2..]);
      assert Pairs(s)[1..] == Pairs(s[2..]);
    }
  }

  lemma NextPair(s: seq<Byte>, i: nat)
    requires i + 1 < |s|
    ensures Total(Pairs(s[i..])) == Join(s[i], s[i + 1]) + Total(Pairs(s[i + 2..]))
    ensures Total(Words(s[i..])) == Join(s[i], s[i + 1]) + Total(Words(s[i + 2..]))
  {
    hide Total;
    var t := s[i..];
    assert t[2..] == s[i + 2..];
    TotalCons(Join(s[i], s[i + 1]), Pairs(t[2..]));
    TotalCons(Join(s[i], s[i + 1]), Words(t[2..]));
  }

  lemma TotalCons(w: nat, ws: seq<nat>)
    ensures Total([w] + ws) == w + Total(ws)
  {
    assert ([w] + ws)[1..] == ws;
  }

  lemma LastWords(s: seq<Byte>, i: nat)
    requires i <= |s| <= i + 1
    ensures Total(Pairs(s[i..])) == 0 && Total(Words(s[i..])) == if i == |s| then 0 else Join(s[i], 0)
  {
  }

  /** What both sums together can reach: 65535 words of 65535, within 32 bits. */
  lemma NoOverflow(data: seq<Byte>, pseudo: seq<Byte>)
    requires |data| <= MAX16 && |pseudo| <= MAX16
    ensures Total(Words(data)) + Total(Pairs(pseudo)) < U32
  {
    WordsFit(data);
    PairsFit(pseudo);
  }

  // ---------------- inet_csum ----------------

  /** inet_csum: the complement of the ones'-complement sum, for every u16 length. */
  method InetCsum(data: seq<Byte>, pseudo: seq<Byte>) returns (c: nat)
    requires |data| <= MAX16 && |pseudo| <= MAX16
    ensures Fits(Pairs(pseudo) + Words(data))
    ensures c == MAX16 - OnesSum(Pairs(pseudo) + Words(data)) <= MAX16
  {
    hide Words, Pairs, Total, Canon, OnesSum, Fits;
    var total: nat := 0;
    NoOverflow(data, pseudo);
    ghost var wanted := Total(Pairs(pseudo)) + Total(Words(data));
    assert pseudo[0..] == pseudo && data[0..] == data;
    var i := 0;
    while i + 1 < |pseudo|
      invariant i <= |pseudo| && total + Total(Pairs(pseudo[i..])) == Total(Pairs(pseudo))
    {
      NextPair(pseudo, i);
      total := (total + Join(pseudo[i], pseudo[i + 1])) % U32;
      i := i + 2;
    }
    LastWords(pseudo, i);
    i := 0;
    while i + 1 < |data|
      invariant i <= |data| && i % 2 == 0 && total + Total(Words(data[i..])) == wanted
    {
      NextPair(data, i);
      total := (total + Join(data[i], data[i + 1])) % U32;
      i := i + 2;
    }
    LastWords(data, i);
    if |data| % 2 == 1 {
      total := (total + Join(data[|data| - 1], 0)) % U32;
    }
    assert total == wanted;
    while total / 0x1_0000 != 0
      invariant Canon(total) == Canon(wanted)
      decreases total
    {
      FoldStep(total);
      total := total % 0x1_0000 + total / 0x1_0000;
    }
    CanonSmall(total);
    WordsFit(data);
    PairsFit(pseudo);
    FitsAppend(Pairs(pseudo), Words(data));
    TotalAppend(Pairs(pseudo), Words(data));
    OnesSumIsCanon(Pairs(pseudo) + Words(data));
    c := MAX16 - total;
  }

  lemma CanonSmall(t: nat)
    requires t <= MAX16
    ensures Canon(t) == t
  {
  }

  lemma FitsAppend(a: seq<nat>, b: seq<nat>)
    requires Fits(a) && Fits(b)
    ensures Fits(a + b)
  {
  }

  // ---------------- the echo reply ----------------

  /** The checksum a receiver computes over a whole message: zero when it is intact. */
  ghost function Received(s: seq<Byte>): (c: nat) {
    WordsFit(s);
    MAX16 - OnesSum(Words(s))
  }

  /** `r` is `s` with its second word set to `c`. */
  ghost predicate Stored(s: seq<Byte>, r: seq<Byte>, c: nat) {
    |s| == |r| >= 4 && Join(r[2], r[3]) == c && forall i :: 0 <= i < |s| && i != 2 && i != 3 ==> r[i] == s[i]
  }

  lemma StoredWord(s: seq<Byte>, r: seq<Byte>, c: nat)
    requires Stored(s, r, c) && s[2] == s[3] == 0
    ensures Total(Words(r)) == Total(Words(s)) + c
  {
    hide Words, Total;
    assert r[0..] == r && s[0..] == s && r[4..] == s[4..];
    NextPair(s, 0);
    NextPair(s, 2);
    NextPair(r, 0);
    NextPair(r, 2);
  }

  /** A total and the complement of its value make a full ones'-complement zero. */
  lemma {:induction false} Complement(t: nat)
    ensures Canon(t + (MAX16 - Canon(t))) == MAX16
  {
    if t > MAX16 {
      Complement(t - MAX16);
    }
  }

  /** Storing the checksum of a message in its own zeroed checksum field makes it verify. */
  lemma SelfVerifies(s: seq<Byte>, r: seq<Byte>)
    requires Stored(s, r, Received(s)) && s[2] == s[3] == 0
    ensures Received(r) == 0
  {
    hide Words, Total, Canon, OnesSum, Fits;
    WordsFit(s);
    WordsFit(r);
    OnesSumIsCanon(Words(s));
    OnesSumIsCanon(Words(r));
    StoredWord(s, r, Received(s));
    Complement(Total(Words(s)));
  }

  const ECHO_REQUEST := 8
  const HEADER := 8

  /** The echo branch of icmp_rx, for messages its reply buffer holds: what is sent back differs from
      the request in the type and the checksum only, and verifies at the other end. */
  method EchoReply(body: seq<Byte>, reply: array<Byte>) returns (sent: bool)
    requires |body| <= reply.Length == 1500
    modifies reply
    ensures sent <==> |body| >= HEADER && body[0] == ECHO_REQUEST
    ensures !sent ==> reply[..] == old(reply[..])
    ensures sent ==> reply[0] == 0 && reply[1] == body[1] && forall i :: 4 <= i < |body| ==> reply[i] == body[i]
    ensures forall i :: |body| <= i < reply.Length ==> reply[i] == old(reply[i])
    ensures sent ==> Received(reply[..|body|]) == 0
  {
    hide Words, Pairs, Total, Canon, OnesSum, Fits, Received;
    if |body| < HEADER || body[0] != ECHO_REQUEST {
      return false;
    }
    forall i | 0 <= i < |body| {
      reply[i] := body[i];
    }
    reply[0], reply[2], reply[3] := 0, 0, 0;
    var blank := reply[..|body|];
    assert forall i :: 4 <= i < |body| ==> blank[i] == body[i];
    var c := InetCsum(blank, []);
    NoPseudo(blank);
    reply[2], reply[3] := c / 256, c % 256;
    assert Stored(blank, reply[..|body|], c);
    SelfVerifies(blank, reply[..|body|]);
    return true;
  }

  lemma NoPseudo(s: seq<Byte>)
    ensures Pairs([]) + Words(s) == Words(s) && Fits(Words(s)) && MAX16 - OnesSum(Words(s)) == Received(s)
  {
    WordsFit(s);
  }
}
