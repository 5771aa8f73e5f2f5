/** How a file is cut into reads, and what of each read is delivered. */
module FileChunks {

  type Data = seq<bv8>

  /** The full reads: successive blocks of exactly `size` bytes, ignoring a shorter remainder. */
  function Blocks(data: Data, size: nat): seq<Data>
    requires size > 0
    decreases |data|
  {
    if |data| < size then [] else [data[..size]] + Blocks(data[size..], size)
  }

  function Remainder(data: Data, size: nat): (r: Data)
    requires size > 0
    ensures |r| < size
    decreases |data|
  {
    if |data| < size then data else Remainder(data[size..], size)
  }

  /** Every read of the loop: the full ones, then the short one that meets the end of the file. */
  function Reads(data: Data, size: nat): seq<Data>
    requires size > 0
  {
    Blocks(data, size) + [Remainder(data, size)]
  }

  /** The bytes that the i-th buffer holds beyond the size asked for. */
  type Slack = nat -> Data

  /** The buffers that are sent: each read with what its buffer holds beyond `size`; empty ones are dropped. */
  function Deliver(parts: seq<Data>, slack: Slack): seq<Data> {
    if parts == [] then []
    else
      var n := |parts| - 1;
      Deliver(parts[..n], slack) + if parts[n] + slack(n) == [] then [] else [parts[n] + slack(n)]
  }

  predicate NoSlack(slack: Slack, n: nat) {
    forall i: nat :: i < n ==> slack(i) == []
  }

  function Shift(slack: Slack): Slack { (i: nat) => slack(i + 1) }

  function Concat(chunks: seq<Data>): Data {
    if chunks == [] then [] else chunks[0] + Concat(chunks[1..])
  }

  lemma DeliverSnoc(parts: seq<Data>, data: Data, slack: Slack)
    ensures var buffer := data + slack(|parts|);
      Deliver(parts + [data], slack) == Deliver(parts, slack) + if buffer == [] then [] else [buffer]
  {
    assert (parts + [data])[..|parts|] == parts;
  }

  lemma ReadsStep(data: Data, size: nat)
    requires size > 0
    ensures |data| < size ==> Reads(data, size) == [data]
    ensures |data| >= size ==> Reads(data, size) == [data[..size]] + Reads(data[size..], size)
  {
  }

  lemma {:induction false} DeliverHead(head: Data, rest: seq<Data>, slack: Slack)
    ensures var buffer := head + slack(0);
      Deliver([head] + rest, slack) == (if buffer == [] then [] else [buffer]) + Deliver(rest, Shift(slack))
    decreases |rest|
  {
    var buffer := head + slack(0);
    if rest == [] {
      assert [head] + rest == [] + [head];
      DeliverSnoc([], head, slack);
    } else {
      var n := |rest| - 1;
      DeliverHead(head, rest[..n], slack);
      DeliverSnoc([head] + rest[..n], rest[n], slack);
      DeliverSnoc(rest[..n], rest[n], Shift(slack));
      assert Shift(slack)(n) == slack(n + 1);
      hide Deliver, Shift;
      assert rest[..n] + [rest[n]] == rest;
      assert ([head] + rest[..n]) + [rest[n]] == [head] + rest;
      var first, last := if buffer == [] then [] else [buffer], rest[n] + slack(n + 1);
      var more := if last == [] then [] else [last];
      Regroup(first, Deliver(rest[..n], Shift(slack)), more);
    }
  }

  lemma Regroup(a: seq<Data>, b: seq<Data>, c: seq<Data>)
    ensures (a + b) + c == a + (b + c)
  {
  }

  lemma ConcatStep(head: Data, rest: seq<Data>)
    ensures Concat([head] + rest) == head + Concat(rest)
    ensures Concat([]) == []
  {
    assert ([head] + rest)[1..] == rest;
  }

  function CeilDiv(n: nat, d: nat): nat
    requires d > 0
  {
    if n == 0 then 0 else if n <= d then 1 else 1 + CeilDiv(n - d, d)
  }

  /** CeilDiv is the least number of chunks of at most d bytes that n bytes need. */
  lemma {:induction false} CeilDivIsLeast(n: nat, d: nat)
    requires d > 0
    ensures n <= CeilDiv(n, d) * d && (n > 0 ==> (CeilDiv(n, d) - 1) * d < n)
  {
    if n > d { CeilDivIsLeast(n - d, d); }
  }

  lemma NoSlackStep(slack: Slack, n: nat)
    requires n > 0
    ensures NoSlack(slack, n) <==> slack(0) == [] && NoSlack(Shift(slack), n - 1)
  {
    if slack(0) == [] && NoSlack(Shift(slack), n - 1) {
      forall i: nat | i < n ensures slack(i) == [] {
        if i > 0 { assert Shift(slack)(i - 1) == []; }
      }
    }
  }

  /** With buffers of exactly the requested size, the file is conserved in the fewest possible chunks. */
  lemma {:induction false} DeliveryConserves(data: Data, size: nat, slack: Slack)
    requires size > 0 && NoSlack(slack, |Reads(data, size)|)
    ensures var sent := Deliver(Reads(data, size), slack);
      && Concat(sent) == data
      && |sent| == CeilDiv(|data|, size)
      && forall i :: 0 <= i < |sent| ==> 0 < |sent[i]| <= size
    decreases |data|
  {
    hide Blocks, Remainder, Deliver, Reads, Concat;
    ReadsStep(data, size);
    NoSlackStep(slack, |Reads(data, size)|);
    var last := |data| < size;
    var head, rest := if last then data else data[..size], if last then [] else Reads(data[size..], size);
    assert Reads(data, size) == [head] + rest && head + [] == head;
    DeliverHead(head, rest, slack);
    var more := Deliver(rest, Shift(slack));
    ConcatStep(head, more);
    if last {
      DeliverNone(Shift(slack));
      if data == [] { assert [] + more == []; } else { assert [head] + more == [head]; }
    } else {
      assert data == head + data[size..];
      DeliveryConserves(data[size..], size, Shift(slack));
    }
  }

  lemma DeliverNone(slack: Slack)
    ensures Deliver([], slack) == []
  {
  }

  /** What is sent is at least as long as the file, and longer whenever a buffer is too large. */
  lemma {:induction false} DeliveryWithSlack(data: Data, size: nat, slack: Slack)
    requires size > 0
    ensures |Concat(Deliver(Reads(data, size), slack))| >= |data|
    ensures !NoSlack(slack, |Reads(data, size)|) ==> |Concat(Deliver(Reads(data, size), slack))| > |data|
    decreases |data|
  {
    hide Blocks, Remainder, Deliver, Reads, Concat;
    ReadsStep(data, size);
    NoSlackStep(slack, |Reads(data, size)|);
    var last := |data| < size;
    var head, rest := if last then data else data[..size], if last then [] else Reads(data[size..], size);
    assert Reads(data, size) == [head] + rest;
    DeliverHead(head, rest, slack);
    var more := Deliver(rest, Shift(slack));
    ConcatStep(head + slack(0), more);
    assert [] + more == more;
    if last {
      DeliverNone(Shift(slack));
    } else {
      DeliveryWithSlack(data[size..], size, Shift(slack));
    }
  }

  /** Streaming conserves a file exactly when no buffer it is read into has more room than was requested. */
  lemma ConservesIff(data: Data, size: nat, slack: Slack)
    requires size > 0
    ensures Concat(Deliver(Reads(data, size), slack)) == data <==> NoSlack(slack, |Reads(data, size)|)
  {
    DeliveryWithSlack(data, size, slack);
    if NoSlack(slack, |Reads(data, size)|) { DeliveryConserves(data, size, slack); }
  }
}
