/** The host table of a preloaded script: a packed byte buffer holding a 2-byte count and,
    for each host, a signed length byte, a 2-byte key ID and a NUL-terminated C name. The
    linker decodes it into builder records, callback-name records and one host placeholder
    per entry, giving every entry a fresh fake callback address. */
module Hosts {
  import opened Slots

  newtype byte = x: int | 0 <= x < 256

  /** The byte order of the 2-byte decoder, which is defined outside this model. */
  datatype ByteOrder = LittleEndian | BigEndian

  /** A 2-byte value as the linker stores it: a signed 16-bit ID. */
  predicate IsId(v: int) {
    -0x8000 <= v < 0x8000
  }

  /** The 2-byte decoder: two buffer bytes read as a signed 16-bit value. */
  function Decode2(order: ByteOrder, b0: byte, b1: byte): (v: int)
    ensures IsId(v)
    ensures v >= 0 <==> (if order.LittleEndian? then b1 else b0) < 0x80
  {
    var u := if order.LittleEndian? then b0 as int + 0x100 * b1 as int else 0x100 * b0 as int + b1 as int;
    if u < 0x8000 then u else u - 0x1_0000
  }

  function Encode2(order: ByteOrder, v: int): (r: seq<byte>)
    requires IsId(v)
    ensures |r| == 2
  {
    var u := if v < 0 then v + 0x1_0000 else v;
    var hi, lo := (u / 0x100) as byte, (u % 0x100) as byte;
    if order.LittleEndian? then [lo, hi] else [hi, lo]
  }

  lemma Decode2Encode2(order: ByteOrder, v: int)
    requires IsId(v)
    ensures var b := Encode2(order, v); Decode2(order, b[0], b[1]) == v
  {
  }

  lemma Encode2Decode2(order: ByteOrder, b0: byte, b1: byte)
    ensures Encode2(order, Decode2(order, b0, b1)) == [b0, b1]
  {
  }

  /** The signed length byte (`txS1`). */
  function Signed(b: byte): (v: int)
    ensures -0x80 <= v < 0x80 && (v < 0 <==> b >= 0x80)
    ensures (if v < 0 then v + 0x100 else v) == b as int
  {
    if b < 0x80 then b as int else b as int - 0x100
  }

  function Unsigned(v: int): (b: byte)
    requires -0x80 <= v < 0x80
    ensures Signed(b) == v
  {
    if v < 0 then (v + 0x100) as byte else v as byte
  }

  /** One decoded entry: a negative length marks a host object, any other length is the
      arity of a host function. */
  datatype HostEntry = HostEntry(length: int, id: int, name: seq<byte>)

  predicate EntryOk(e: HostEntry) {
    -0x80 <= e.length < 0x80 && IsId(e.id) && 0 !in e.name
  }

  predicate EntriesOk(es: seq<HostEntry>) {
    forall i :: 0 <= i < |es| ==> EntryOk(es[i])
  }

  /** Why a buffer cannot be decoded. The linker itself reads past the end of such a buffer;
      these errors are checks this model adds. */
  datatype DecodeError = ShortCount | ShortEntry | Unterminated

  datatype Result<T> = Ok(value: T) | Fail(error: DecodeError)

  /** The position of the first NUL byte at or after `p` (what `strlen` measures). */
  function NulFrom(buf: seq<byte>, p: nat): (r: Option<nat>)
    requires p <= |buf|
    ensures r.Some? ==> p <= r.value < |buf|
    decreases |buf| - p
  {
    if p == |buf| then None
    else if buf[p] == 0 then Some(p)
    else NulFrom(buf, p + 1)
  }

  /** The NUL found is the first one at or after `p`, and none is found exactly when there
      is none. */
  lemma {:induction false} NulFromFirst(buf: seq<byte>, p: nat)
    requires p <= |buf|
    ensures NulFrom(buf, p).Some? ==> var z := NulFrom(buf, p).value; buf[z] == 0 && 0 !in buf[p..z]
    ensures NulFrom(buf, p).None? <==> 0 !in buf[p..]
    decreases |buf| - p
  {
    if p < |buf| && buf[p] != 0 {
      NulFromFirst(buf, p + 1);
      assert buf[p..] == [buf[p]] + buf[p + 1..];
      if NulFrom(buf, p).Some? {
        var z := NulFrom(buf, p).value;
        assert buf[p..z] == [buf[p]] + buf[p + 1..z];
      }
    }
  }

  /** A NUL with no NUL before it is the one the search finds. */
  lemma {:induction false} NulFromIs(buf: seq<byte>, from: nat, z: nat)
    requires from <= z < |buf| && buf[z] == 0 && 0 !in buf[from..z]
    ensures NulFrom(buf, from) == Some(z)
    decreases z - from
  {
    if from < z {
      assert buf[from] in buf[from..z];
      assert buf[from + 1..z] == buf[from..z][1..];
      NulFromIs(buf, from + 1, z);
    }
  }

  /** The entry at the start of `bytes`, and how many bytes it takes. */
  function DecodeEntry(order: ByteOrder, bytes: seq<byte>): (r: Result<(HostEntry, nat)>)
    ensures r.Ok? ==> EntryOk(r.value.0) && r.value.1 == 3 + |r.value.0.name| + 1 <= |bytes|
    ensures r.Fail? ==> !r.error.ShortCount?
  {
    if |bytes| < 3 then Fail(ShortEntry)
    else
      match NulFrom(bytes, 3)
      case None => Fail(Unterminated)
      case Some(z) =>
        NulFromFirst(bytes, 3);
        Ok((HostEntry(Signed(bytes[0]), Decode2(order, bytes[1], bytes[2]), bytes[3..z]), z + 1))
  }

  /** The first `n` entries at the start of `bytes`, and the bytes that follow them. */
  function DecodeEntries(order: ByteOrder, bytes: seq<byte>, n: nat): (r: Result<(seq<HostEntry>, seq<byte>)>)
    ensures r.Ok? ==> |r.value.0| == n && EntriesOk(r.value.0)
    ensures r.Fail? ==> !r.error.ShortCount?
    decreases n
  {
    if n == 0 then Ok(([], bytes))
    else
      match DecodeEntry(order, bytes)
      case Fail(x) => Fail(x)
      case Ok((e, k)) =>
        match DecodeEntries(order, bytes[k..], n - 1)
        case Fail(x) => Fail(x)
        case Ok((es, rest)) => Ok(([e] + es, rest))
  }

  /** The whole table: the count, and the entries it announces. A count that is not positive
      announces none. Bytes after the last entry are not read. */
  function DecodeHosts(order: ByteOrder, buf: seq<byte>): (r: Result<(int, seq<HostEntry>)>)
    ensures r.Ok? ==> IsId(r.value.0) && |r.value.1| == (if r.value.0 < 0 then 0 else r.value.0)
    ensures r.Ok? ==> EntriesOk(r.value.1)
    ensures |buf| < 2 <==> r == Fail(ShortCount)
  {
    if |buf| < 2 then Fail(ShortCount)
    else
      var c := Decode2(order, buf[0], buf[1]);
      match DecodeEntries(order, buf[2..], if c < 0 then 0 else c)
      case Fail(x) => Fail(x)
      case Ok((es, _)) => Ok((c, es))
  }

  // ------------------------------------------------------------------ encoding

  function EncodeEntry(order: ByteOrder, e: HostEntry): (r: seq<byte>)
    requires EntryOk(e)
    ensures |r| == 3 + |e.name| + 1
  {
    [Unsigned(e.length)] + Encode2(order, e.id) + e.name + [0]
  }

  function EncodeEntries(order: ByteOrder, es: seq<HostEntry>): seq<byte>
    requires EntriesOk(es)
    decreases |es|
  {
    if es == [] then [] else EncodeEntry(order, es[0]) + EncodeEntries(order, es[1..])
  }

  /** The table a compiler writes for the given hosts. */
  function EncodeHosts(order: ByteOrder, es: seq<HostEntry>): seq<byte>
    requires EntriesOk(es) && |es| < 0x8000
  {
    Encode2(order, |es|) + EncodeEntries(order, es)
  }

  /** An encoded entry decodes to itself, whatever follows it. */
  lemma DecodeEncodeEntry(order: ByteOrder, e: HostEntry, rest: seq<byte>)
    requires EntryOk(e)
    ensures DecodeEntry(order, EncodeEntry(order, e) + rest) == Ok((e, |EncodeEntry(order, e)|))
  {
    var bytes := EncodeEntry(order, e) + rest;
    var z := 3 + |e.name|;
    var id := Encode2(order, e.id);
    assert bytes[0] == Unsigned(e.length) && bytes[1] == id[0] && bytes[2] == id[1];
    Decode2Encode2(order, e.id);
    assert bytes[3..z] == e.name;
    assert bytes[z] == 0;
    NulFromIs(bytes, 3, z);
  }

  /** Encoded entries decode to themselves, and the bytes after them are left over. */
  lemma {:induction false} DecodeEncodeEntries(order: ByteOrder, es: seq<HostEntry>, rest: seq<byte>)
    requires EntriesOk(es)
    ensures DecodeEntries(order, EncodeEntries(order, es) + rest, |es|) == Ok((es, rest))
    decreases |es|
  {
    if es != [] {
      var head, tail := EncodeEntry(order, es[0]), EncodeEntries(order, es[1..]);
      var bytes := EncodeEntries(order, es) + rest;
      assert bytes == head + (tail + rest);
      DecodeEncodeEntry(order, es[0], tail + rest);
      assert bytes[|head|..] == tail + rest;
      assert EntriesOk(es[1..]);
      DecodeEncodeEntries(order, es[1..], rest);
      DecodeEntriesCons(order, bytes, es[0], |head|, |es|);
      assert [es[0]] + es[1..] == es;
    } else {
      assert EncodeEntries(order, es) + rest == rest;
    }
  }

  /** Decoding inverts encoding, whatever bytes follow the table. */
  lemma DecodeEncodeHosts(order: ByteOrder, es: seq<HostEntry>, rest: seq<byte>)
    requires EntriesOk(es) && |es| < 0x8000
    ensures DecodeHosts(order, EncodeHosts(order, es) + rest) == Ok((|es|, es))
  {
    var buf := EncodeHosts(order, es) + rest;
    var count := Encode2(order, |es|);
    Decode2Encode2(order, |es|);
    assert buf[0] == count[0] && buf[1] == count[1];
    assert buf[2..] == EncodeEntries(order, es) + rest;
    DecodeEncodeEntries(order, es, rest);
  }

  /** A count that is not positive yields an empty table, whatever follows it. */
  lemma NoEntries(order: ByteOrder, buf: seq<byte>)
    requires |buf| >= 2 && Decode2(order, buf[0], buf[1]) <= 0
    ensures DecodeHosts(order, buf) == Ok((Decode2(order, buf[0], buf[1]), []))
  {
  }

  // ------------------------------------------------------------------ registration

  /** What the linker records for one host: the fake callback that stands for it, with the
      length and ID of its entry. */
  datatype Builder = Builder(callback: int, length: int, id: int)

  /** The C name of a host, by its fake callback. */
  datatype CallbackName = CallbackName(callback: int, name: seq<byte>)

  /** The placeholder left in the script's host array: a host object whose destructor is
      the fake callback, or a host function built by the builder at that position. */
  datatype Host = ObjectHost(destructor: int) | FunctionHost(builder: nat)

  /** A decoded host table: the count as read, and one record of each kind per entry. */
  datatype Table = Table(count: int, builders: seq<Builder>, names: seq<CallbackName>, hosts: seq<Host>)

  /** The host placeholder for entry `i`, whose fake callback is `callback`. */
  function HostOf(e: HostEntry, i: nat, callback: int): Host {
    if e.length < 0 then ObjectHost(callback) else FunctionHost(i)
  }

  /** The records of the entries `es`, their fake callbacks counting up from `fake`. */
  function Register(c: int, es: seq<HostEntry>, fake: int): (t: Table)
    ensures t.count == c && |t.builders| == |es| && |t.names| == |es| && |t.hosts| == |es|
    decreases |es|
  {
    if es == [] then Table(c, [], [], [])
    else
      var t, i := Register(c, es[..|es| - 1], fake), |es| - 1;
      Table(c, t.builders + [Builder(fake + i, es[i].length, es[i].id)],
               t.names + [CallbackName(fake + i, es[i].name)],
               t.hosts + [HostOf(es[i], i, fake + i)])
  }

  /** Entry i has the fake callback fake + i in both its records, carries its length, ID and
      name into them, and has the placeholder its length calls for. */
  lemma {:induction false} RegisterAt(c: int, es: seq<HostEntry>, fake: int, i: nat)
    requires i < |es|
    ensures var t := Register(c, es, fake);
            && t.builders[i] == Builder(fake + i, es[i].length, es[i].id)
            && t.names[i] == CallbackName(fake + i, es[i].name)
            && t.hosts[i] == HostOf(es[i], i, fake + i)
    decreases |es|
  {
    if i < |es| - 1 {
      RegisterAt(c, es[..|es| - 1], fake, i);
    }
  }

  /** The table the linker records for a script whose host buffer is `buf`, when the fake
      callback counter stands at `fake`. */
  function HostTable(order: ByteOrder, buf: seq<byte>, fake: int): (r: Result<Table>)
    ensures r.Fail? <==> DecodeHosts(order, buf).Fail?
    ensures r.Ok? ==> |buf| >= 2 && r.value.count == Decode2(order, buf[0], buf[1])
  {
    match DecodeHosts(order, buf)
    case Fail(x) => Fail(x)
    case Ok((c, es)) => Ok(Register(c, es, fake))
  }

  /** Every decoded table has one builder, one callback name and one placeholder per
      announced entry (none for a count that is not positive); entry i has the fake callback
      fake + i in both its records, so the callbacks are consecutive and distinct; a host
      object's destructor is that callback, and a host function uses builder i. */
  lemma HostTableRecords(order: ByteOrder, buf: seq<byte>, fake: int)
    requires HostTable(order, buf, fake).Ok?
    ensures var t := HostTable(order, buf, fake).value;
            var n := if t.count < 0 then 0 else t.count;
            && |t.builders| == n && |t.names| == n && |t.hosts| == n
            && (forall i :: 0 <= i < n ==> t.builders[i].callback == fake + i && t.names[i].callback == fake + i)
            && (forall i :: 0 <= i < n ==>
                  t.hosts[i] == if t.builders[i].length < 0 then ObjectHost(fake + i) else FunctionHost(i))
            && (forall i, j :: 0 <= i < j < n ==> t.names[i].callback < t.names[j].callback)
  {
    var t := HostTable(order, buf, fake).value;
    var es := DecodeHosts(order, buf).value.1;
    forall i | 0 <= i < |es|
      ensures t.builders[i].callback == fake + i && t.names[i].callback == fake + i
      ensures t.hosts[i] == if t.builders[i].length < 0 then ObjectHost(fake + i) else FunctionHost(i)
    {
      RegisterAt(t.count, es, fake, i);
    }
  }

  /** The records of an encoded table carry each entry's length, ID and name, in order. */
  lemma HostTableEncoded(order: ByteOrder, es: seq<HostEntry>, rest: seq<byte>, fake: int)
    requires EntriesOk(es) && |es| < 0x8000
    ensures HostTable(order, EncodeHosts(order, es) + rest, fake) == Ok(Register(|es|, es, fake))
    ensures var t := Register(|es|, es, fake);
            forall i :: 0 <= i < |es| ==>
              t.builders[i].length == es[i].length && t.builders[i].id == es[i].id && t.names[i].name == es[i].name
  {
    DecodeEncodeHosts(order, es, rest);
    forall i | 0 <= i < |es|
      ensures var t := Register(|es|, es, fake);
              t.builders[i].length == es[i].length && t.builders[i].id == es[i].id && t.names[i].name == es[i].name
    {
      RegisterAt(|es|, es, fake, i);
    }
  }

  // ------------------------------------------------------------------ the decoding loop

  /** Entries decoded so far, followed by the decoding of the rest. */
  function Then(es: seq<HostEntry>, r: Result<(seq<HostEntry>, seq<byte>)>): Result<(seq<HostEntry>, seq<byte>)> {
    match r
    case Fail(x) => Fail(x)
    case Ok((more, rest)) => Ok((es + more, rest))
  }

  /** The number of entries the count of a table announces. */
  function Announced(order: ByteOrder, buf: seq<byte>): nat
    requires 2 <= |buf|
  {
    var c := Decode2(order, buf[0], buf[1]);
    if c < 0 then 0 else c
  }

  /** The state of the decoding loop after `|es|` of `n` entries, the cursor at `p`. */
  ghost predicate Loading(order: ByteOrder, buf: seq<byte>, n: nat, es: seq<HostEntry>, p: nat) {
    && |es| <= n && 2 <= p <= |buf| && EntriesOk(es)
    && DecodeEntries(order, buf[2..], n) == Then(es, DecodeEntries(order, buf[p..], n - |es|))
  }

  lemma LoadingStart(order: ByteOrder, buf: seq<byte>, n: nat)
    requires 2 <= |buf|
    ensures Loading(order, buf, n, [], 2)
  {
    var r := DecodeEntries(order, buf[2..], n);
    if r.Ok? {
      assert [] + r.value.0 == r.value.0;
    }
  }

  /** One more entry decoded at the cursor moves the cursor past it. */
  lemma LoadingNext(order: ByteOrder, buf: seq<byte>, n: nat, es: seq<HostEntry>, p: nat, e: HostEntry, k: nat)
    requires Loading(order, buf, n, es, p) && |es| < n
    requires DecodeEntry(order, buf[p..]) == Ok((e, k))
    ensures p + k <= |buf| && Loading(order, buf, n, es + [e], p + k)
  {
    var m := n - |es|;
    DecodeEntriesCons(order, buf[p..], e, k, m);
    assert buf[p..][k..] == buf[p + k..];
    var later := DecodeEntries(order, buf[p + k..], m - 1);
    assert DecodeEntries(order, buf[p..], m) == Then([e], later);
    ThenThen(es, e, later);
    assert DecodeEntries(order, buf[2..], n) == Then(es + [e], later);
    assert EntriesOk(es + [e]);
  }

  lemma DecodeEntriesCons(order: ByteOrder, bytes: seq<byte>, e: HostEntry, k: nat, m: nat)
    requires DecodeEntry(order, bytes) == Ok((e, k)) && 0 < m
    ensures k <= |bytes| && DecodeEntries(order, bytes, m) == Then([e], DecodeEntries(order, bytes[k..], m - 1))
  {
  }

  /** An entry that cannot be decoded at the cursor makes the whole table fail. */
  lemma LoadingFails(order: ByteOrder, buf: seq<byte>, fake: int, es: seq<HostEntry>, p: nat)
    requires 2 <= |buf|
    requires Loading(order, buf, Announced(order, buf), es, p) && |es| < Announced(order, buf)
    requires DecodeEntry(order, buf[p..]).Fail?
    ensures HostTable(order, buf, fake) == Fail(DecodeEntry(order, buf[p..]).error)
  {
  }

  /** The entry at the cursor, once its name's NUL is found. */
  lemma LoadingEntry(order: ByteOrder, bytes: seq<byte>, z: nat)
    requires 3 <= |bytes| && NulFrom(bytes, 3) == Some(z)
    ensures DecodeEntry(order, bytes) == Ok((HostEntry(Signed(bytes[0]), Decode2(order, bytes[1], bytes[2]), bytes[3..z]), z + 1))
  {
  }

  /** The whole state of the decoding loop: the entries decoded so far, the cursor, and
      the records filled in for them. */
  ghost predicate Loaded(order: ByteOrder, buf: seq<byte>, fake: int, es: seq<HostEntry>, p: nat,
                         builders: seq<Builder>, names: seq<CallbackName>, hosts: seq<Host>) {
    && 2 <= |buf|
    && var c := Decode2(order, buf[0], buf[1]);
       && Loading(order, buf, Announced(order, buf), es, p)
       && builders == Register(c, es, fake).builders
       && names == Register(c, es, fake).names
       && hosts == Register(c, es, fake).hosts
  }

  /** The records of one more entry extend the loop state. */
  lemma LoadedNext(order: ByteOrder, buf: seq<byte>, fake: int, es: seq<HostEntry>, p: nat,
                   builders: seq<Builder>, names: seq<CallbackName>, hosts: seq<Host>, e: HostEntry, k: nat)
    requires Loaded(order, buf, fake, es, p, builders, names, hosts) && |es| < Announced(order, buf)
    requires DecodeEntry(order, buf[p..]) == Ok((e, k))
    ensures Loaded(order, buf, fake, es + [e], p + k, builders + [Builder(fake + |es|, e.length, e.id)],
                   names + [CallbackName(fake + |es|, e.name)], hosts + [HostOf(e, |es|, fake + |es|)])
  {
    RegisterNext(Decode2(order, buf[0], buf[1]), es, e, fake);
    LoadingNext(order, buf, Announced(order, buf), es, p, e, k);
  }

  /** The loop ends with the table complete. */
  lemma LoadingDone(order: ByteOrder, buf: seq<byte>, fake: int, es: seq<HostEntry>, p: nat)
    requires 2 <= |buf|
    requires Loading(order, buf, Announced(order, buf), es, p) && |es| == Announced(order, buf)
    ensures HostTable(order, buf, fake) == Ok(Register(Decode2(order, buf[0], buf[1]), es, fake))
  {
    assert es + [] == es;
  }

  lemma ThenThen(es: seq<HostEntry>, e: HostEntry, r: Result<(seq<HostEntry>, seq<byte>)>)
    ensures Then(es, Then([e], r)) == Then(es + [e], r)
  {
    if r.Ok? {
      assert es + ([e] + r.value.0) == es + [e] + r.value.0;
    }
  }

  lemma RegisterNext(c: int, es: seq<HostEntry>, e: HostEntry, fake: int)
    ensures var t, t' := Register(c, es, fake), Register(c, es + [e], fake);
            && t'.builders == t.builders + [Builder(fake + |es|, e.length, e.id)]
            && t'.names == t.names + [CallbackName(fake + |es|, e.name)]
            && t'.hosts == t.hosts + [HostOf(e, |es|, fake + |es|)]
  {
    assert (es + [e])[..|es|] == es;
  }
}
