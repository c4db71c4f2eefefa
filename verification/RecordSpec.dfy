/** Records behind a little-endian length prefix, and the plain queue of whole records. */
module RecordSpec {
  import opened Collections
  import opened Words

  /** `__kfifo_max_r` for an unlimited length: the largest length the prefix can express. */
  function MaxLength(recsize: nat): nat {
    if recsize == 1 then 255 else 65535
  }

  /** The bytes that `__kfifo_poke_n` stores for length `n`, truncated as it truncates. */
  function Prefix(n: nat, recsize: nat): (p: seq<byte>)
    ensures recsize == 1 || recsize == 2 ==> |p| == recsize
  {
    if recsize == 1 then [n % 256] else [n % 256, (n / 256) % 256]
  }

  /** The length that `__kfifo_peek_n` reads back. */
  function HeadLength(s: seq<byte>, recsize: nat): nat
    requires 1 <= recsize <= 2 && |s| >= recsize
  {
    if recsize == 1 then s[0] else (s[0] as int) + 256 * (s[1] as int)
  }

  function EncodeOne(r: seq<byte>, recsize: nat): seq<byte> {
    Prefix(|r|, recsize) + r
  }

  function Encode(rs: seq<seq<byte>>, recsize: nat): seq<byte> {
    if rs == [] then [] else EncodeOne(rs[0], recsize) + Encode(rs[1..], recsize)
  }

  /** The records that a byte string denotes, if it is a sequence of whole records. */
  function Decode(s: seq<byte>, recsize: nat): (r: Option<seq<seq<byte>>>)
    requires 1 <= recsize <= 2
    ensures r.Some? ==> forall x :: x in r.value ==> |x| <= MaxLength(recsize)
    ensures r.Some? ==> (r.value == [] <==> s == [])
  {
    if s == [] then Some([]) else
    if |s| < recsize then None else
      var n := HeadLength(s, recsize);
      if recsize + n > |s| then None else
        match Decode(s[recsize + n..], recsize)
        case None => None
        case Some(rest) => Some([s[recsize..recsize + n]] + rest)
  }

  /** The length prefix reads back as written exactly when it can express the length. */
  lemma PrefixRoundTrip(n: nat, recsize: nat, rest: seq<byte>)
    requires 1 <= recsize <= 2
    ensures HeadLength(Prefix(n, recsize) + rest, recsize) == n <==> n <= MaxLength(recsize)
  {}

  /** Decoding one whole record at the front. */
  lemma DecodeCons(r: seq<byte>, s: seq<byte>, recsize: nat)
    requires 1 <= recsize <= 2 && |r| <= MaxLength(recsize)
    ensures Decode(EncodeOne(r, recsize) + s, recsize) ==
            match Decode(s, recsize) case None => None case Some(rest) => Some([r] + rest)
  {
    var t := EncodeOne(r, recsize) + s;
    assert t == Prefix(|r|, recsize) + (r + s);
    PrefixRoundTrip(|r|, recsize, r + s);
    assert t[recsize..recsize + |r|] == r && t[recsize + |r|..] == s;
  }

  /** Records that the prefix can express survive storage, and only they come out of it. */
  lemma {:induction false} DecodeEncode(rs: seq<seq<byte>>, recsize: nat)
    requires 1 <= recsize <= 2
    ensures Decode(Encode(rs, recsize), recsize) == Some(rs) <==>
            forall r :: r in rs ==> |r| <= MaxLength(recsize)
  {
    if forall r :: r in rs ==> |r| <= MaxLength(recsize) {
      if rs != [] {
        DecodeEncode(rs[1..], recsize);
        DecodeCons(rs[0], Encode(rs[1..], recsize), recsize);
        assert [rs[0]] + rs[1..] == rs;
      }
    }
  }

  /** A length prefix in a byte string is the prefix of the length it expresses. */
  lemma PrefixOfHead(s: seq<byte>, recsize: nat)
    requires 1 <= recsize <= 2 && |s| >= recsize
    ensures Prefix(HeadLength(s, recsize), recsize) == s[..recsize]
  {}

  lemma EncodeCons(r: seq<byte>, rest: seq<seq<byte>>, recsize: nat)
    ensures Encode([r] + rest, recsize) == Prefix(|r|, recsize) + r + Encode(rest, recsize)
  {}

  lemma SplitAt(s: seq<byte>, i: nat, j: nat)
    requires i <= j <= |s|
    ensures s == s[..i] + s[i..j] + s[j..]
  {}

  /** Whatever decodes is the encoding of what it decodes to, so the records of a byte string
      are unique. */
  lemma {:induction false} EncodeDecode(s: seq<byte>, recsize: nat)
    requires 1 <= recsize <= 2 && Decode(s, recsize).Some?
    ensures Encode(Decode(s, recsize).value, recsize) == s
  {
    if s == [] {
    } else {
      var n := HeadLength(s, recsize);
      EncodeDecode(s[recsize + n..], recsize);
      PrefixOfHead(s, recsize);
      SplitAt(s, recsize, recsize + n);
      EncodeCons(s[recsize..recsize + n], Decode(s[recsize + n..], recsize).value, recsize);
    }
  }

  lemma Associative(a: seq<byte>, b: seq<byte>, c: seq<byte>)
    ensures a + (b + c) == (a + b) + c
  {}

  lemma {:induction false} EncodeSnoc(rs: seq<seq<byte>>, r: seq<byte>, recsize: nat)
    ensures Encode(rs + [r], recsize) == Encode(rs, recsize) + EncodeOne(r, recsize)
  {
    if rs == [] {
      assert rs + [r] == [r];
      assert EncodeOne(r, recsize) + Encode([], recsize) == EncodeOne(r, recsize);
    } else {
      var rest := Encode(rs[1..], recsize);
      EncodeSnoc(rs[1..], r, recsize);
      assert (rs + [r])[1..] == rs[1..] + [r] && (rs + [r])[0] == rs[0];
      Associative(EncodeOne(rs[0], recsize), rest, EncodeOne(r, recsize));
    }
  }

  /** A record appended to whole records is one more record at the end. It comes out again
      exactly when its length fits the prefix. */
  lemma DecodeSnoc(s: seq<byte>, r: seq<byte>, recsize: nat)
    requires 1 <= recsize <= 2 && Decode(s, recsize).Some?
    ensures Decode(s + EncodeOne(r, recsize), recsize) == Some(Decode(s, recsize).value + [r])
       <==> |r| <= MaxLength(recsize)
  {
    var rs := Decode(s, recsize).value;
    EncodeDecode(s, recsize);
    EncodeSnoc(rs, r, recsize);
    DecodeEncode(rs + [r], recsize);
    assert (rs + [r])[|rs|] == r;
  }

  /** Non-empty records start with a whole one. */
  lemma FrontRecord(s: seq<byte>, recsize: nat) returns (r: seq<byte>, rest: seq<seq<byte>>)
    requires 1 <= recsize <= 2 && s != [] && Decode(s, recsize).Some?
    ensures Decode(s, recsize) == Some([r] + rest)
    ensures |s| >= recsize + |r| && HeadLength(s, recsize) == |r|
    ensures s[recsize..recsize + |r|] == r
    ensures Decode(s[recsize + |r|..], recsize) == Some(rest)
  {
    var n := HeadLength(s, recsize);
    r, rest := s[recsize..recsize + n], Decode(s[recsize + n..], recsize).value;
  }

  /** A record one byte too long for its prefix: stored, but read back as empty. */
  lemma TooLong(r: seq<byte>)
    requires |r| == 256
    ensures HeadLength(EncodeOne(r, 1), 1) == 0
    ensures Decode(EncodeOne(r, 1), 1) != Some([r])
  {}

  // ----- the plain queue of records -----

  datatype Op =
    | Put(rec: seq<byte>)
    | Get(len: nat)
    | Look(len: nat)
    | Skip

  datatype Reply =
    | Stored(len: nat)
    | Delivered(bytes: seq<byte>)
    | Skipped

  /** A record is inserted whole or not at all; a removal takes exactly one record and delivers
      as much of it as the caller has room for. */
  function Apply(cap: nat, recsize: nat, q: seq<seq<byte>>, op: Op): (r: (seq<seq<byte>>, Reply)) {
    match op
    case Put(rec) =>
      if |Encode(q, recsize)| + |rec| + recsize <= cap then (q + [rec], Stored(|rec|)) else (q, Stored(0))
    case Get(len) =>
      if q == [] then (q, Delivered([])) else (q[1..], Delivered(q[0][..Min(len, |q[0]|)]))
    case Look(len) =>
      (q, Delivered(if q == [] then [] else q[0][..Min(len, |q[0]|)]))
    case Skip =>
      (if q == [] then q else q[1..], Skipped)
  }

  /** What the callers of the record functions have to respect. */
  predicate Legal(recsize: nat, q: seq<seq<byte>>, op: Op) {
    && (op.Put? ==> |op.rec| <= MaxLength(recsize))
    && (op.Skip? ==> q != [])
  }

  function Run(cap: nat, recsize: nat, q: seq<seq<byte>>, ops: seq<Op>): (r: (seq<seq<byte>>, seq<Reply>))
    ensures |r.1| == |ops|
  {
    if ops == [] then (q, []) else
      var (q1, replies) := Run(cap, recsize, q, ops[..|ops| - 1]);
      var (q2, last) := Apply(cap, recsize, q1, ops[|ops| - 1]);
      (q2, replies + [last])
  }

  ghost predicate LegalRun(cap: nat, recsize: nat, q: seq<seq<byte>>, ops: seq<Op>) {
    forall i :: 0 <= i < |ops| ==> Legal(recsize, Run(cap, recsize, q, ops[..i]).0, ops[i])
  }

  // ----- the queue by its effects -----

  /** As much of a record as a caller has room for. */
  predicate Part(bytes: seq<byte>, rec: seq<byte>, len: nat) {
    bytes <= rec && |bytes| <= len && (|bytes| == len || bytes == rec)
  }

  /** What an operation may do, said of the records before and after it. A record goes in whole if all
      records then fit in the buffer, and otherwise not at all. A removal takes the first record, whatever
      part of it is delivered. */
  predicate Effect(cap: nat, recsize: nat, q: seq<seq<byte>>, op: Op, q': seq<seq<byte>>, reply: Reply) {
    match op
    case Put(rec) =>
      if |Encode(q + [rec], recsize)| <= cap then q' == q + [rec] && reply == Stored(|rec|)
      else q' == q && reply == Stored(0)
    case Get(len) =>
      reply.Delivered? && if q == [] then q' == [] && reply.bytes == []
                          else q == [q[0]] + q' && Part(reply.bytes, q[0], len)
    case Look(len) =>
      reply.Delivered? && q' == q && if q == [] then reply.bytes == [] else Part(reply.bytes, q[0], len)
    case Skip =>
      reply == Skipped && if q == [] then q' == [] else q == [q[0]] + q'
  }

  /** This determines records and reply. */
  lemma EffectDetermines(cap: nat, recsize: nat, q: seq<seq<byte>>, op: Op, q': seq<seq<byte>>, reply: Reply)
    requires 1 <= recsize <= 2
    ensures Effect(cap, recsize, q, op, q', reply) <==> (q', reply) == Apply(cap, recsize, q, op)
  {
    if op.Put? {
      EncodeSnoc(q, op.rec, recsize);
      assert |EncodeOne(op.rec, recsize)| == recsize + |op.rec|;
    } else if q != [] {
      assert q == [q[0]] + q[1..];
      if q == [q[0]] + q' {
        assert q' == q[1..];
      }
      if op.Get? || op.Look? {
        PartIs(q[0], op.len, if reply.Delivered? then reply.bytes else []);
      }
    }
  }

  lemma PartIs(rec: seq<byte>, len: nat, bytes: seq<byte>)
    ensures Part(bytes, rec, len) <==> bytes == rec[..Min(len, |rec|)]
  {
    if Part(bytes, rec, len) {
      assert bytes == rec[..|bytes|];
    }
  }

  /** Every step of every run has its effect. */
  lemma {:induction false} EveryStep(cap: nat, recsize: nat, q: seq<seq<byte>>, ops: seq<Op>, i: nat)
    requires 1 <= recsize <= 2 && i < |ops|
    ensures Effect(cap, recsize, Run(cap, recsize, q, ops[..i]).0, ops[i], Run(cap, recsize, q, ops[..i + 1]).0,
                   Run(cap, recsize, q, ops).1[i])
  {
    hide Apply, Effect;
    var n := |ops| - 1;
    var before := Run(cap, recsize, q, ops[..n]);
    if i == n {
      assert ops[..i + 1] == ops;
      var (q2, last) := Apply(cap, recsize, before.0, ops[n]);
      EffectDetermines(cap, recsize, before.0, ops[n], q2, last);
    } else {
      EveryStep(cap, recsize, q, ops[..n], i);
      assert ops[..n][..i] == ops[..i] && ops[..n][..i + 1] == ops[..i + 1];
    }
  }

  /** The records that the insertions of a run got in, in order. */
  function Entered(cap: nat, recsize: nat, q: seq<seq<byte>>, ops: seq<Op>): seq<seq<byte>> {
    if ops == [] then [] else
      var n := |ops| - 1;
      Entered(cap, recsize, q, ops[..n]) +
      if ops[n].Put? && |Run(cap, recsize, q, ops).0| > |Run(cap, recsize, q, ops[..n]).0| then [ops[n].rec] else []
  }

  /** The first records of the queues that a removal or a skip found, in order. */
  function Removed(cap: nat, recsize: nat, q: seq<seq<byte>>, ops: seq<Op>): seq<seq<byte>> {
    if ops == [] then [] else
      var n := |ops| - 1;
      var found := Run(cap, recsize, q, ops[..n]).0;
      Removed(cap, recsize, q, ops[..n]) + if (ops[n].Get? || ops[n].Skip?) && found != [] then [found[0]] else []
  }

  /** Over any run, the records at the start followed by those that entered are those removed, one for each
      removal or skip that found any, followed by those at the end. */
  lemma {:induction false} Conservation(cap: nat, recsize: nat, q: seq<seq<byte>>, ops: seq<Op>)
    ensures q + Entered(cap, recsize, q, ops) == Removed(cap, recsize, q, ops) + Run(cap, recsize, q, ops).0
  {
    if ops == [] {
    } else {
      var n := |ops| - 1;
      Conservation(cap, recsize, q, ops[..n]);
      var q1, q2 := Run(cap, recsize, q, ops[..n]).0, Run(cap, recsize, q, ops).0;
      StepConserves(cap, recsize, q1, ops[n], q + Entered(cap, recsize, q, ops[..n]), Removed(cap, recsize, q, ops[..n]));
      var got := if ops[n].Put? && |q2| > |q1| then [ops[n].rec] else [];
      assert q + (Entered(cap, recsize, q, ops[..n]) + got) == q + Entered(cap, recsize, q, ops[..n]) + got;
    }
  }

  lemma StepConserves(cap: nat, recsize: nat, q: seq<seq<byte>>, op: Op, entered: seq<seq<byte>>, removed: seq<seq<byte>>)
    requires entered == removed + q
    ensures var q' := Apply(cap, recsize, q, op).0;
            entered + (if op.Put? && |q'| > |q| then [op.rec] else [])
            == removed + (if (op.Get? || op.Skip?) && q != [] then [q[0]] else []) + q'
  {
    if q != [] {
      assert q == [q[0]] + q[1..];
      assert removed + ([q[0]] + q[1..]) == removed + [q[0]] + q[1..];
    }
    if op.Put? {
      assert removed + (q + [op.rec]) == removed + q + [op.rec];
    }
  }
}
