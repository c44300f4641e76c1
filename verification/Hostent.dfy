/**
 * Packing a host entry into the caller's buffer (fill_hostent in libnss/nss_disco.c), byte by byte.
 *
 * Pointers are 64-bit little-endian words; `base` is the address of the buffer.  `inet_pton` is a
 * parameter that yields the binary address or nothing, and writes nothing when it fails.
 */
module Hostent {
  import opened Common
  import NssScan

  type byte = x: int | 0 <= x < 256

  const WORD: nat := 8
  const MAX_HOSTNAME := 256

  datatype Family = INET | OTHER

  function AddrSize(af: Family): nat {
    if af == INET then 4 else 16
  }

  type Pton = (Family, seq<byte>) -> Option<seq<byte>>

  /** A successful conversion yields an address of the family's size. */
  ghost predicate SizedPton(pton: Pton) {
    forall af, s :: pton(af, s).Some? ==> |pton(af, s).value| == AddrSize(af)
  }

  /** The address list as the caller passes it: some entries may be null. */
  type AddrText = Option<seq<byte>>

  function ParseOne(pton: Pton, af: Family, a: AddrText): Option<seq<byte>> {
    if a.Some? && a.value != [] then pton(af, a.value) else None
  }

  /** The addresses that parse for the family, in order. */
  function Parsed(pton: Pton, af: Family, addrs: seq<AddrText>): (r: seq<seq<byte>>)
    ensures |r| <= |addrs|
  {
    if addrs == [] then []
    else
      var rest := Parsed(pton, af, addrs[..|addrs| - 1]);
      var last := ParseOne(pton, af, addrs[|addrs| - 1]);
      if last.Some? then rest + [last.value] else rest
  }

  // ----- layout -----

  /** The next multiple of the alignment.  The alignments in use are powers of two, for which masking
      `x + align - 1` with `~(align - 1)` gives the same number. */
  function AlignUp(x: nat, align: nat): (r: nat)
    requires align == 4 || align == 8 || align == 16
    ensures x <= r < x + align && r % align == 0
  {
    if align == 4 then Up4(x) else if align == 8 then Up8(x) else Up16(x)
  }

  function Up4(x: nat): (r: nat)
    ensures x <= r < x + 4 && r % 4 == 0
  {
    (x + 3) / 4 * 4
  }

  function Up8(x: nat): (r: nat)
    ensures x <= r < x + 8 && r % 8 == 0
  {
    (x + 7) / 8 * 8
  }

  function Up16(x: nat): (r: nat)
    ensures x <= r < x + 16 && r % 16 == 0
  {
    (x + 15) / 16 * 16
  }

  /** Offset of address `k` among addresses of 4 or 16 bytes. */
  function Slot(k: nat, size: nat): nat {
    if size == 4 then 4 * k else 16 * k
  }

  /** Offsets into the buffer: the name is at 0. */
  datatype Layout = Layout(aliases: nat, list: nat, data: nat, total: nat)

  function LayoutFor(nameLen: nat, n: nat, size: nat): Layout
    requires size == 4 || size == 16
  {
    var aliases := AlignUp(nameLen + 1, WORD);
    var list := aliases + WORD;
    var data := AlignUp(list + (n + 1) * WORD, size);
    Layout(aliases, list, data, data + Slot(n, size))
  }

  // ----- bytes -----

  function Zeros(n: nat): (r: seq<byte>)
    ensures |r| == n
  {
    seq(n, _ => 0)
  }

  /** Little-endian encoding in `n` bytes. */
  function Encode(v: nat, n: nat): (r: seq<byte>)
    ensures |r| == n
  {
    if n == 0 then [] else [v % 256] + Encode(v / 256, n - 1)
  }

  function Decode(s: seq<byte>): nat {
    if s == [] then 0 else s[0] + 256 * Decode(s[1..])
  }

  function Pow256(n: nat): nat {
    if n == 0 then 1 else 256 * Pow256(n - 1)
  }

  lemma {:induction false} DecodeEncode(v: nat, n: nat)
    requires v < Pow256(n)
    ensures Decode(Encode(v, n)) == v
  {
    if n > 0 {
      DecodeEncode(v / 256, n - 1);
      assert Encode(v, n)[1..] == Encode(v / 256, n - 1);
    }
  }

  lemma DecodeWord(v: nat)
    requires v < TWO_64
    ensures Decode(Encode(v, WORD)) == v
  {
    assert Pow256(4) == 0x1_0000_0000;
    assert Pow256(8) == TWO_64;
    DecodeEncode(v, WORD);
  }

  predicate BytesAt(m: seq<byte>, off: nat, data: seq<byte>) {
    off + |data| <= |m| && forall i :: 0 <= i < |data| ==> m[off + i] == data[i]
  }

  /** `m` with `data` written at `off`. */
  function Blit(m: seq<byte>, off: nat, data: seq<byte>): (r: seq<byte>)
    requires off + |data| <= |m|
    ensures |r| == |m|
  {
    m[..off] + data + m[off + |data|..]
  }

  lemma BlitWrites(m: seq<byte>, off: nat, data: seq<byte>)
    requires off + |data| <= |m|
    ensures BytesAt(Blit(m, off, data), off, data)
  {
  }

  lemma BlitKeeps(m: seq<byte>, off: nat, data: seq<byte>, at: nat, kept: seq<byte>)
    requires off + |data| <= |m| && BytesAt(m, at, kept)
    requires at + |kept| <= off || off + |data| <= at
    ensures BytesAt(Blit(m, off, data), at, kept)
  {
  }

  method Memcpy(buffer: array<byte>, off: nat, data: seq<byte>)
    requires off + |data| <= buffer.Length
    modifies buffer
    ensures buffer[..] == Blit(old(buffer[..]), off, data)
  {
    for i := 0 to |data|
      invariant forall k :: 0 <= k < i ==> buffer[off + k] == data[k]
      invariant forall k :: 0 <= k < buffer.Length && !(off <= k < off + i) ==> buffer[k] == old(buffer[k])
    {
      buffer[off + i] := data[i];
    }
  }

  method Memset0(buffer: array<byte>)
    modifies buffer
    ensures buffer[..] == Zeros(buffer.Length)
  {
    for i := 0 to buffer.Length
      invariant forall k :: 0 <= k < i ==> buffer[k] == 0
    {
      buffer[i] := 0;
    }
  }

  // ----- the packed entry -----

  /** The pointer fields of `struct hostent`, as addresses. */
  datatype HostEnt = HostEnt(name: nat, aliases: nat, addrType: Family, length: nat, addrList: nat)

  function EntryAt(base: nat, l: Layout, af: Family): HostEnt {
    HostEnt(base, base + l.aliases, af, AddrSize(af), base + l.list)
  }

  /** The pointer words, as the bytes stored for them. */
  ghost function PointerWords(base: nat, l: Layout, size: nat, n: nat): (r: seq<seq<byte>>)
    ensures |r| == n && forall k :: 0 <= k < n ==> |r[k]| == WORD
  {
    seq(n, (k: nat) => Encode(base + l.data + Slot(k, size), WORD))
  }

  /** The first `done` addresses and their pointers are in place; all other pointer slots are null. */
  ghost predicate Filled(m: seq<byte>, l: Layout, name: seq<byte>, ptrs: seq<seq<byte>>, parsed: seq<seq<byte>>,
                         size: nat, done: nat)
    requires done <= |parsed| == |ptrs|
  {
    && BytesAt(m, 0, name + [0])
    && BytesAt(m, l.aliases, Zeros(WORD))
    && (forall k :: 0 <= k < done ==> BytesAt(m, l.list + k * WORD, ptrs[k]))
    && (forall k :: done <= k <= |parsed| ==> BytesAt(m, l.list + k * WORD, Zeros(WORD)))
    && (forall k :: 0 <= k < done ==> BytesAt(m, l.data + Slot(k, size), parsed[k]))
  }

  lemma ZerosAt(m: seq<byte>, off: nat, n: nat)
    requires off + n <= |m| && forall i :: off <= i < off + n ==> m[i] == 0
    ensures BytesAt(m, off, Zeros(n))
  {
  }

  /** The state after clearing the buffer and copying the name. */
  lemma FilledAtStart(buflen: nat, l: Layout, name: seq<byte>, ptrs: seq<seq<byte>>, parsed: seq<seq<byte>>, size: nat)
    requires (size == 4 || size == 16) && Separate(l, |name|, |parsed|, size) && l.total <= buflen && |ptrs| == |parsed|
    ensures Filled(Blit(Zeros(buflen), 0, name), l, name, ptrs, parsed, size, 0)
  {
    var m := Blit(Zeros(buflen), 0, name);
    forall k | 0 <= k <= |parsed|
      ensures BytesAt(m, l.list + k * WORD, Zeros(WORD))
    {
      ZerosAt(m, l.list + k * WORD, WORD);
    }
  }

  /** `m` after writing address `k` and then its pointer. */
  function WithEntry(m: seq<byte>, l: Layout, size: nat, k: nat, ptr: seq<byte>, addr: seq<byte>): (r: seq<byte>)
    requires |addr| == size && l.data + Slot(k, size) + size <= |m|
    requires |ptr| == WORD && l.list + k * WORD + WORD <= |m|
    ensures |r| == |m|
  {
    Blit(Blit(m, l.data + Slot(k, size), addr), l.list + k * WORD, ptr)
  }

  /** Name, pointer tables and address data follow each other without overlap, aligned, and end at
      `total`. */
  predicate Separate(l: Layout, nameLen: nat, n: nat, size: nat)
    requires size == 4 || size == 16
  {
    && nameLen + 1 <= l.aliases
    && l.aliases + WORD == l.list
    && l.list + (n + 1) * WORD <= l.data
    && l.data + Slot(n, size) == l.total
    && l.aliases % WORD == 0 && l.list % WORD == 0 && l.data % size == 0
  }

  lemma LayoutSeparate(nameLen: nat, n: nat, size: nat)
    requires size == 4 || size == 16
    ensures Separate(LayoutFor(nameLen, n, size), nameLen, n, size)
  {
  }

  lemma BlitKeepsBoth(m: seq<byte>, d: nat, x: seq<byte>, p: nat, y: seq<byte>, at: nat, kept: seq<byte>)
    requires d + |x| <= |m| && p + |y| <= |m| && BytesAt(m, at, kept)
    requires at + |kept| <= d || d + |x| <= at
    requires at + |kept| <= p || p + |y| <= at
    ensures BytesAt(Blit(Blit(m, d, x), p, y), at, kept)
  {
    BlitKeeps(m, d, x, at, kept);
    BlitKeeps(Blit(m, d, x), p, y, at, kept);
  }

  lemma EntryKeeps(m: seq<byte>, l: Layout, n: nat, size: nat, done: nat, ptr: seq<byte>, addr: seq<byte>, at: nat,
                   kept: seq<byte>)
    requires (size == 4 || size == 16) && done < n && |addr| == size && |ptr| == WORD
    requires l.list + (n + 1) * WORD <= l.data && l.data + Slot(n, size) <= |m|
    requires BytesAt(m, at, kept)
    requires at + |kept| <= l.list + done * WORD
          || (l.list + done * WORD + WORD <= at && at + |kept| <= l.data + Slot(done, size))
    ensures l.data + Slot(done, size) + size <= |m| && l.list + done * WORD + WORD <= |m|
    ensures BytesAt(WithEntry(m, l, size, done, ptr, addr), at, kept)
  {
    BlitKeepsBoth(m, l.data + Slot(done, size), addr, l.list + done * WORD, ptr, at, kept);
  }

  lemma EntryWrites(m: seq<byte>, l: Layout, n: nat, size: nat, done: nat, ptr: seq<byte>, addr: seq<byte>)
    requires (size == 4 || size == 16) && done < n && |addr| == size && |ptr| == WORD
    requires l.list + (n + 1) * WORD <= l.data && l.data + Slot(n, size) <= |m|
    ensures l.data + Slot(done, size) + size <= |m| && l.list + done * WORD + WORD <= |m|
    ensures BytesAt(WithEntry(m, l, size, done, ptr, addr), l.data + Slot(done, size), addr)
    ensures BytesAt(WithEntry(m, l, size, done, ptr, addr), l.list + done * WORD, ptr)
  {
    BlitWritesBoth(m, l.data + Slot(done, size), addr, l.list + done * WORD, ptr);
  }

  lemma BlitWritesBoth(m: seq<byte>, d: nat, x: seq<byte>, p: nat, y: seq<byte>)
    requires p + |y| <= d && d + |x| <= |m|
    ensures BytesAt(Blit(Blit(m, d, x), p, y), d, x)
    ensures BytesAt(Blit(Blit(m, d, x), p, y), p, y)
  {
    BlitWrites(m, d, x);
    BlitKeeps(Blit(m, d, x), p, y, d, x);
    BlitWrites(Blit(m, d, x), p, y);
  }

  /** Writing entry `done` leaves every other word of the pointer table alone. */
  lemma WordKept(m: seq<byte>, l: Layout, n: nat, size: nat, done: nat, ptr: seq<byte>, addr: seq<byte>, k: nat,
                 word: seq<byte>)
    requires (size == 4 || size == 16) && done < n && |addr| == size && |ptr| == |word| == WORD
    requires l.list + (n + 1) * WORD <= l.data && l.data + Slot(n, size) <= |m|
    requires k <= n && k != done && BytesAt(m, l.list + k * WORD, word)
    ensures l.data + Slot(done, size) + size <= |m| && l.list + done * WORD + WORD <= |m|
    ensures BytesAt(WithEntry(m, l, size, done, ptr, addr), l.list + k * WORD, word)
  {
    EntryKeeps(m, l, n, size, done, ptr, addr, l.list + k * WORD, word);
  }

  /** Writing entry `done` leaves the addresses before it alone. */
  lemma AddressKept(m: seq<byte>, l: Layout, n: nat, size: nat, done: nat, ptr: seq<byte>, addr: seq<byte>, k: nat,
                    kept: seq<byte>)
    requires (size == 4 || size == 16) && done < n && |addr| == |kept| == size && |ptr| == WORD
    requires l.list + (n + 1) * WORD <= l.data && l.data + Slot(n, size) <= |m|
    requires k < done && BytesAt(m, l.data + Slot(k, size), kept)
    ensures l.data + Slot(done, size) + size <= |m| && l.list + done * WORD + WORD <= |m|
    ensures BytesAt(WithEntry(m, l, size, done, ptr, addr), l.data + Slot(k, size), kept)
  {
    EntryKeeps(m, l, n, size, done, ptr, addr, l.data + Slot(k, size), kept);
  }

  lemma PointersKept(m: seq<byte>, l: Layout, ptrs: seq<seq<byte>>, n: nat, size: nat, done: nat, addr: seq<byte>)
    requires (size == 4 || size == 16) && done < n == |ptrs| && |addr| == size
    requires l.list + (n + 1) * WORD <= l.data && l.data + Slot(n, size) <= |m|
    requires forall k :: 0 <= k < n ==> |ptrs[k]| == WORD
    requires forall k :: 0 <= k < done ==> BytesAt(m, l.list + k * WORD, ptrs[k])
    requires forall k :: done <= k <= n ==> BytesAt(m, l.list + k * WORD, Zeros(WORD))
    ensures l.data + Slot(done, size) + size <= |m| && l.list + done * WORD + WORD <= |m|
    ensures var m2 := WithEntry(m, l, size, done, ptrs[done], addr);
            && (forall k :: 0 <= k < done + 1 ==> BytesAt(m2, l.list + k * WORD, ptrs[k]))
            && (forall k :: done + 1 <= k <= n ==> BytesAt(m2, l.list + k * WORD, Zeros(WORD)))
  {
    EntryWrites(m, l, n, size, done, ptrs[done], addr);
    var m2 := WithEntry(m, l, size, done, ptrs[done], addr);
    forall k | 0 <= k < done + 1
      ensures BytesAt(m2, l.list + k * WORD, ptrs[k])
    {
      if k < done {
        WordKept(m, l, n, size, done, ptrs[done], addr, k, ptrs[k]);
      }
    }
    forall k | done + 1 <= k <= n
      ensures BytesAt(m2, l.list + k * WORD, Zeros(WORD))
    {
      WordKept(m, l, n, size, done, ptrs[done], addr, k, Zeros(WORD));
    }
  }

  lemma AddressesKept(m: seq<byte>, l: Layout, ptr: seq<byte>, parsed: seq<seq<byte>>, size: nat, done: nat)
    requires (size == 4 || size == 16) && done < |parsed| && |ptr| == WORD
    requires l.list + (|parsed| + 1) * WORD <= l.data && l.data + Slot(|parsed|, size) <= |m|
    requires forall k :: 0 <= k < |parsed| ==> |parsed[k]| == size
    requires forall k :: 0 <= k < done ==> BytesAt(m, l.data + Slot(k, size), parsed[k])
    ensures l.data + Slot(done, size) + size <= |m| && l.list + done * WORD + WORD <= |m|
    ensures var m2 := WithEntry(m, l, size, done, ptr, parsed[done]);
            forall k :: 0 <= k < done + 1 ==> BytesAt(m2, l.data + Slot(k, size), parsed[k])
  {
    EntryWrites(m, l, |parsed|, size, done, ptr, parsed[done]);
    var m2 := WithEntry(m, l, size, done, ptr, parsed[done]);
    forall k | 0 <= k < done + 1
      ensures BytesAt(m2, l.data + Slot(k, size), parsed[k])
    {
      if k < done {
        AddressKept(m, l, |parsed|, size, done, ptr, parsed[done], k, parsed[k]);
      }
    }
  }

  /** Writing address `done` and its pointer advances the packing by one. */
  lemma FilledStep(m: seq<byte>, l: Layout, name: seq<byte>, ptrs: seq<seq<byte>>, parsed: seq<seq<byte>>, size: nat,
                   done: nat)
    requires (size == 4 || size == 16) && Separate(l, |name|, |parsed|, size) && l.total <= |m|
    requires done < |parsed| == |ptrs|
    requires forall k :: 0 <= k < |parsed| ==> |parsed[k]| == size && |ptrs[k]| == WORD
    requires Filled(m, l, name, ptrs, parsed, size, done)
    ensures l.data + Slot(done, size) + size <= |m| && l.list + done * WORD + WORD <= |m|
    ensures Filled(WithEntry(m, l, size, done, ptrs[done], parsed[done]), l, name, ptrs, parsed, size, done + 1)
  {
    PointersKept(m, l, ptrs, |parsed|, size, done, parsed[done]);
    AddressesKept(m, l, ptrs[done], parsed, size, done);
    EntryKeeps(m, l, |parsed|, size, done, ptrs[done], parsed[done], 0, name + [0]);
    EntryKeeps(m, l, |parsed|, size, done, ptrs[done], parsed[done], l.aliases, Zeros(WORD));
  }

  // ----- the code -----

  lemma {:induction false} ParsedPrefix(pton: Pton, af: Family, addrs: seq<AddrText>, i: nat)
    requires i <= |addrs|
    ensures Parsed(pton, af, addrs[..i]) <= Parsed(pton, af, addrs)
  {
    if i == |addrs| {
      assert addrs[..i] == addrs;
    } else {
      var front := addrs[..|addrs| - 1];
      assert front[..i] == addrs[..i];
      ParsedPrefix(pton, af, front, i);
    }
  }

  lemma ParsedNext(pton: Pton, af: Family, addrs: seq<AddrText>, i: nat)
    requires i < |addrs|
    ensures var last := ParseOne(pton, af, addrs[i]);
            Parsed(pton, af, addrs[..i + 1]) == Parsed(pton, af, addrs[..i]) + if last.Some? then [last.value] else []
  {
    assert addrs[..i + 1][..i] == addrs[..i];
  }

  lemma {:induction false} ParsedSizes(pton: Pton, af: Family, addrs: seq<AddrText>)
    requires SizedPton(pton)
    ensures forall k :: 0 <= k < |Parsed(pton, af, addrs)| ==> |Parsed(pton, af, addrs)[k]| == AddrSize(af)
  {
    if addrs != [] {
      ParsedSizes(pton, af, addrs[..|addrs| - 1]);
    }
  }

  method CountForFamily(addrs: seq<AddrText>, af: Family, pton: Pton) returns (n: nat)
    ensures n == |Parsed(pton, af, addrs)|
  {
    n := 0;
    for i := 0 to |addrs|
      invariant n == |Parsed(pton, af, addrs[..i])|
    {
      ParsedNext(pton, af, addrs, i);
      if addrs[i].Some? && addrs[i].value != [] {
        if pton(af, addrs[i].value).Some? {
          n := n + 1;
        }
      }
    }
    assert addrs[..|addrs|] == addrs;
  }

  /** Writes address `k` and the word that points to it. */
  method PlaceEntry(buffer: array<byte>, base: nat, l: Layout, size: nat, k: nat, addr: seq<byte>, ghost n: nat)
    requires k < n && |addr| == size && l.data + Slot(k, size) + size <= buffer.Length
    requires l.list + k * WORD + WORD <= buffer.Length
    modifies buffer
    ensures buffer[..] == WithEntry(old(buffer[..]), l, size, k, PointerWords(base, l, size, n)[k], addr)
  {
    Memcpy(buffer, l.data + Slot(k, size), addr);
    Memcpy(buffer, l.list + k * WORD, Encode(base + l.data + Slot(k, size), WORD));
  }

  /** Writes the next address and its pointer beside those already in place. */
  method PlaceNext(buffer: array<byte>, base: nat, l: Layout, size: nat, k: nat, addr: seq<byte>, ghost m: seq<byte>,
                   ghost name: seq<byte>, ghost parsed: seq<seq<byte>>)
      returns (ghost m': seq<byte>)
    requires (size == 4 || size == 16) && k < |parsed| && parsed[k] == addr
    requires forall j :: 0 <= j < |parsed| ==> |parsed[j]| == size
    requires Separate(l, |name|, |parsed|, size) && l.total <= |m|
    requires m == buffer[..] && Filled(m, l, name, PointerWords(base, l, size, |parsed|), parsed, size, k)
    modifies buffer
    ensures m' == buffer[..] && Filled(m', l, name, PointerWords(base, l, size, |parsed|), parsed, size, k + 1)
  {
    FilledStep(m, l, name, PointerWords(base, l, size, |parsed|), parsed, size, k);
    PlaceEntry(buffer, base, l, size, k, addr, |parsed|);
    m' := buffer[..];
  }

  /** The address found at index `i` is the next one to place. */
  lemma NextParsed(pton: Pton, af: Family, addrs: seq<AddrText>, i: nat)
    requires i < |addrs|
    ensures var done, last := |Parsed(pton, af, addrs[..i])|, ParseOne(pton, af, addrs[i]);
            && (last.Some? ==> done < |Parsed(pton, af, addrs)| && Parsed(pton, af, addrs)[done] == last.value)
            && |Parsed(pton, af, addrs[..i + 1])| == if last.Some? then done + 1 else done
  {
    ParsedNext(pton, af, addrs, i);
    ParsedPrefix(pton, af, addrs, i + 1);
    var p, q := Parsed(pton, af, addrs[..i + 1]), Parsed(pton, af, addrs);
    assert forall k :: 0 <= k < |p| ==> p[k] == q[k];
  }

  /** Copies the parsed addresses and their pointers into a cleared buffer that holds the name. */
  method FillAddresses(addrs: seq<AddrText>, af: Family, buffer: array<byte>, base: nat, pton: Pton, valid: nat,
                       l: Layout,
                       ghost name: seq<byte>)
      returns (ghost m: seq<byte>)
    requires SizedPton(pton) && valid == |Parsed(pton, af, addrs)|
    requires Separate(l, |name|, valid, AddrSize(af)) && l.total <= buffer.Length
    requires Filled(buffer[..], l, name, PointerWords(base, l, AddrSize(af), valid),
                    Parsed(pton, af, addrs), AddrSize(af), 0)
    modifies buffer
    ensures m == buffer[..]
    ensures Filled(m, l, name, PointerWords(base, l, AddrSize(af), valid), Parsed(pton, af, addrs), AddrSize(af), valid)
  {
    ghost var parsed := Parsed(pton, af, addrs);
    ghost var ptrs := PointerWords(base, l, AddrSize(af), valid);
    ParsedSizes(pton, af, addrs);
    m := buffer[..];
    var out, i := 0, 0;
    while i < |addrs| && out < valid
      invariant 0 <= i <= |addrs|
      invariant out == |Parsed(pton, af, addrs[..i])| <= valid
      invariant m == buffer[..] && |m| == buffer.Length
      invariant Filled(m, l, name, ptrs, parsed, AddrSize(af), out)
    {
      NextParsed(pton, af, addrs, i);
      var addr := TryParse(pton, af, addrs[i]);
      if addr.Some? {
        m := PlaceNext(buffer, base, l, AddrSize(af), out, addr.value, m, name, parsed);
        out := out + 1;
      }
      i := i + 1;
    }
    assert i == |addrs| ==> addrs[..i] == addrs;
  }

  /** Clears the buffer and copies the name. */
  method PlaceName(name: seq<byte>, buffer: array<byte>, l: Layout, ghost ptrs: seq<seq<byte>>,
                   ghost parsed: seq<seq<byte>>, ghost size: nat)
    requires (size == 4 || size == 16) && |ptrs| == |parsed|
    requires Separate(l, |name|, |parsed|, size) && l.total <= buffer.Length
    modifies buffer
    ensures Filled(buffer[..], l, name, ptrs, parsed, size, 0)
  {
    Memset0(buffer);
    Memcpy(buffer, 0, name);
    FilledAtStart(buffer.Length, l, name, ptrs, parsed, size);
    assert buffer[..] == Blit(Zeros(buffer.Length), 0, name);
  }

  /** Terminates the pointer table. */
  method PlaceNull(buffer: array<byte>, off: nat, ghost m: seq<byte>)
    requires m == buffer[..] && BytesAt(m, off, Zeros(WORD))
    modifies buffer
    ensures m == buffer[..]
  {
    NullAlreadyThere(m, off);
    Memcpy(buffer, off, Zeros(WORD));
  }

  method TryParse(pton: Pton, af: Family, a: AddrText) returns (r: Option<seq<byte>>)
    ensures r == ParseOne(pton, af, a)
  {
    if a.None? || a.value == [] {
      return None;
    }
    r := pton(af, a.value);
  }

  lemma NullAlreadyThere(m: seq<byte>, off: nat)
    requires BytesAt(m, off, Zeros(WORD))
    ensures Blit(m, off, Zeros(WORD)) == m
  {
    assert forall i :: off <= i < off + WORD ==> m[i] == Zeros(WORD)[i - off];
  }

  /** The cases in which packing succeeds. */
  predicate Packable(name: seq<byte>, parsed: seq<seq<byte>>, numAddrs: int, af: Family, buflen: nat) {
    && name != [] && |name| < MAX_HOSTNAME
    && 0 < numAddrs <= NssScan.MAX_ADDRS
    && parsed != []
    && LayoutFor(|name|, |parsed|, AddrSize(af)).total <= buflen
  }

  /** The bytes an entry takes: the name and its terminator up to a multiple of 8, one null pointer, the
      pointers and their terminator, and the addresses from the next multiple of their size on. */
  function BytesNeeded(nameLen: nat, n: nat, af: Family): nat {
    var header := (nameLen + 8) / 8 * 8 + 8 + (n + 1) * 8;
    if af == INET then (header + 3) / 4 * 4 + 4 * n else (header + 15) / 16 * 16 + 16 * n
  }

  /** Exactly when an entry can be packed, in numbers. */
  lemma PackableExactly(name: seq<byte>, parsed: seq<seq<byte>>, numAddrs: int, af: Family, buflen: nat)
    ensures Packable(name, parsed, numAddrs, af, buflen) <==>
            && 1 <= |name| <= 255 && 1 <= numAddrs <= 4 && |parsed| >= 1
            && BytesNeeded(|name|, |parsed|, af) <= buflen
  {
  }

  /** Which addresses are packed: those that are present, not empty and parse for the family, in order. */
  lemma {:induction false} ParsedConcat(pton: Pton, af: Family, a: seq<AddrText>, b: seq<AddrText>)
    ensures Parsed(pton, af, a + b) == Parsed(pton, af, a) + Parsed(pton, af, b)
  {
    if b == [] {
      assert a + b == a;
    } else {
      assert (a + b)[..|a + b| - 1] == a + b[..|b| - 1];
      ParsedConcat(pton, af, a, b[..|b| - 1]);
    }
  }

  lemma ParsedOne(pton: Pton, af: Family, text: seq<byte>)
    ensures Parsed(pton, af, [None]) == []
    ensures Parsed(pton, af, [Some(text)]) ==
            if text != [] && pton(af, text).Some? then [pton(af, text).value] else []
  {
    var none: seq<AddrText>, some: seq<AddrText> := [None], [Some(text)];
    assert none[..0] == [] && some[..0] == [];
  }

  function Candidates(addrs: seq<AddrText>, numAddrs: int): seq<AddrText>
    requires numAddrs <= |addrs|
  {
    if numAddrs < 0 then [] else addrs[..numAddrs]
  }

  method FillHostent(name: seq<byte>, addrs: seq<AddrText>, numAddrs: int, af: Family, buffer: array<byte>, base: nat,
                     pton: Pton)
      returns (r: Option<HostEnt>)
    requires numAddrs <= |addrs| && SizedPton(pton)
    modifies buffer
    ensures r.Some? <==> Packable(name, Parsed(pton, af, Candidates(addrs, numAddrs)), numAddrs, af, buffer.Length)
    ensures r.None? ==> buffer[..] == old(buffer[..])
    ensures r.Some? ==> Packed(buffer[..], base, name, Parsed(pton, af, Candidates(addrs, numAddrs)), af, r.value)
  {
    if name == [] || buffer.Length == 0 {
      return None;
    }
    if |name| >= MAX_HOSTNAME {
      return None;
    }
    if numAddrs <= 0 || numAddrs > NssScan.MAX_ADDRS {
      return None;
    }
    var valid := CountForFamily(addrs[..numAddrs], af, pton);
    if valid == 0 {
      return None;
    }
    var l := LayoutFor(|name|, valid, AddrSize(af));
    if l.total > buffer.Length {
      return None;
    }
    var h := Pack(name, addrs[..numAddrs], af, buffer, base, pton, valid);
    return Some(h);
  }

  /** The entry and the bytes it points to, laid out and readable: following the pointers gives the name,
      no aliases and the parsed addresses in order. */
  ghost predicate Packed(m: seq<byte>, base: nat, name: seq<byte>, parsed: seq<seq<byte>>, af: Family, h: HostEnt) {
    var l := LayoutFor(|name|, |parsed|, AddrSize(af));
    && h == EntryAt(base, l, af)
    && h.name == base && h.addrType == af && h.length == (if af == INET then 4 else 16)
    && Filled(m, l, name, PointerWords(base, l, AddrSize(af), |parsed|), parsed, AddrSize(af), |parsed|)
    && (0 !in name && 0 < base && base + |m| < TWO_64 ==> ReadEntry(m, base, h) == Some(Entry(name, [], parsed)))
  }

  /** The filling pass, once everything is known to fit. */
  method Pack(name: seq<byte>, addrs: seq<AddrText>, af: Family, buffer: array<byte>, base: nat, pton: Pton, valid: nat)
      returns (h: HostEnt)
    requires SizedPton(pton) && valid == |Parsed(pton, af, addrs)|
    requires LayoutFor(|name|, valid, AddrSize(af)).total <= buffer.Length
    modifies buffer
    ensures Packed(buffer[..], base, name, Parsed(pton, af, addrs), af, h)
  {
    var l := LayoutFor(|name|, valid, AddrSize(af));
    LayoutSeparate(|name|, valid, AddrSize(af));
    PlaceName(name, buffer, l, PointerWords(base, l, AddrSize(af), valid), Parsed(pton, af, addrs), AddrSize(af));
    ghost var m := FillAddresses(addrs, af, buffer, base, pton, valid, l, name);
    PlaceNull(buffer, l.list + valid * WORD, m);
    h := EntryAt(base, l, af);
    if 0 !in name && 0 < base && base + |m| < TWO_64 {
      PackedParsedReadsBack(m, base, name, pton, af, addrs);
    }
  }

  // ----- reading the entry back -----

  /** The NUL-terminated string at `off`. */
  function ReadCString(m: seq<byte>, off: nat): Option<seq<byte>>
    decreases |m| - off
  {
    if off >= |m| then None
    else if m[off] == 0 then Some([])
    else
      match ReadCString(m, off + 1)
      case None => None
      case Some(rest) => Some([m[off]] + rest)
  }

  /** The NULL-terminated pointer table at `off`. */
  function ReadPointers(m: seq<byte>, off: nat): Option<seq<nat>>
    decreases |m| - off
  {
    if off + WORD > |m| then None
    else
      var p := Decode(m[off..off + WORD]);
      if p == 0 then Some([])
      else
        match ReadPointers(m, off + WORD)
        case None => None
        case Some(rest) => Some([p] + rest)
  }

  predicate Inside(m: seq<byte>, base: nat, p: nat, size: nat) {
    base <= p && p - base + size <= |m|
  }

  function ReadAddresses(m: seq<byte>, base: nat, ps: seq<nat>, size: nat): Option<seq<seq<byte>>> {
    if ps == [] then Some([])
    else if !Inside(m, base, ps[0], size) then None
    else
      match ReadAddresses(m, base, ps[1..], size)
      case None => None
      case Some(rest) => Some([m[ps[0] - base..ps[0] - base + size]] + rest)
  }

  datatype Entry = Entry(name: seq<byte>, aliases: seq<nat>, addresses: seq<seq<byte>>)

  /** What a caller sees who follows the pointers of the host entry. */
  function ReadEntry(m: seq<byte>, base: nat, h: HostEnt): Option<Entry>
    requires base <= h.name && base <= h.aliases && base <= h.addrList
  {
    match (ReadCString(m, h.name - base), ReadPointers(m, h.aliases - base), ReadPointers(m, h.addrList - base)) {
      case (Some(name), Some(aliases), Some(ps)) =>
        (match ReadAddresses(m, base, ps, h.length)
         case None => None
         case Some(addresses) => Some(Entry(name, aliases, addresses)))
      case (_, _, _) => None
    }
  }

  lemma {:induction false} ReadName(m: seq<byte>, off: nat, name: seq<byte>)
    requires BytesAt(m, off, name + [0]) && 0 !in name
    ensures ReadCString(m, off) == Some(name)
    decreases |name|
  {
    assert (name + [0])[0] == m[off + 0];
    if name != [] {
      var rest := name[1..] + [0];
      assert name[0] in name;
      forall i | 0 <= i < |rest|
        ensures m[off + 1 + i] == rest[i]
      {
        assert rest[i] == (name + [0])[i + 1];
      }
      ReadName(m, off + 1, name[1..]);
      assert name == [m[off]] + name[1..];
    }
  }

  lemma SliceOf(m: seq<byte>, off: nat, data: seq<byte>)
    requires BytesAt(m, off, data)
    ensures m[off..off + |data|] == data
  {
  }

  lemma {:induction false} DecodeZeros(n: nat)
    ensures Decode(Zeros(n)) == 0
  {
    if n > 0 {
      assert Zeros(n)[1..] == Zeros(n - 1);
      DecodeZeros(n - 1);
    }
  }

  lemma ReadNull(m: seq<byte>, off: nat)
    requires BytesAt(m, off, Zeros(WORD))
    ensures ReadPointers(m, off) == Some([])
  {
    SliceOf(m, off, Zeros(WORD));
    DecodeZeros(WORD);
  }

  function AddrPointers(base: nat, l: Layout, size: nat, from: nat, n: nat): seq<nat>
    requires from <= n
    decreases n - from
  {
    if from == n then [] else [base + l.data + Slot(from, size)] + AddrPointers(base, l, size, from + 1, n)
  }

  lemma ReadOnePointer(m: seq<byte>, off: nat, p: nat, ps: seq<nat>)
    requires 0 < p < TWO_64 && BytesAt(m, off, Encode(p, WORD)) && ReadPointers(m, off + WORD) == Some(ps)
    ensures ReadPointers(m, off) == Some([p] + ps)
  {
    SliceOf(m, off, Encode(p, WORD));
    DecodeWord(p);
  }

  lemma {:induction false} ReadPointerTable(m: seq<byte>, base: nat, l: Layout, name: seq<byte>,
                                            parsed: seq<seq<byte>>, size: nat, from: nat)
    requires (size == 4 || size == 16) && from <= |parsed| && Separate(l, |name|, |parsed|, size)
    requires 0 < base && base + |m| < TWO_64 && l.total <= |m|
    requires Filled(m, l, name, PointerWords(base, l, size, |parsed|), parsed, size, |parsed|)
    ensures ReadPointers(m, l.list + from * WORD) == Some(AddrPointers(base, l, size, from, |parsed|))
    decreases |parsed| - from
  {
    var n, off := |parsed|, l.list + from * WORD;
    if from == n {
      ReadNull(m, off);
    } else {
      var p := base + l.data + Slot(from, size);
      assert BytesAt(m, off, PointerWords(base, l, size, n)[from]);
      ReadPointerTable(m, base, l, name, parsed, size, from + 1);
      ReadOnePointer(m, off, p, AddrPointers(base, l, size, from + 1, n));
    }
  }

  lemma {:induction false} ReadAddressData(m: seq<byte>, base: nat, l: Layout, parsed: seq<seq<byte>>, size: nat,
                                           from: nat)
    requires (size == 4 || size == 16) && from <= |parsed| && l.data + Slot(|parsed|, size) <= |m|
    requires forall k :: 0 <= k < |parsed| ==> |parsed[k]| == size && BytesAt(m, l.data + Slot(k, size), parsed[k])
    ensures ReadAddresses(m, base, AddrPointers(base, l, size, from, |parsed|), size) == Some(parsed[from..])
    decreases |parsed| - from
  {
    if from < |parsed| {
      ReadAddressData(m, base, l, parsed, size, from + 1);
      SliceOf(m, l.data + Slot(from, size), parsed[from]);
      assert parsed[from..] == [parsed[from]] + parsed[from + 1..];
      var ps := AddrPointers(base, l, size, from, |parsed|);
      assert ps[1..] == AddrPointers(base, l, size, from + 1, |parsed|);
    }
  }

  lemma EntryFromParts(m: seq<byte>, base: nat, h: HostEnt, name: seq<byte>, ps: seq<nat>, parsed: seq<seq<byte>>)
    requires base <= h.name && base <= h.aliases && base <= h.addrList
    requires ReadCString(m, h.name - base) == Some(name)
    requires ReadPointers(m, h.aliases - base) == Some([])
    requires ReadPointers(m, h.addrList - base) == Some(ps)
    requires ReadAddresses(m, base, ps, h.length) == Some(parsed)
    ensures ReadEntry(m, base, h) == Some(Entry(name, [], parsed))
  {
  }

  lemma PartsReadBack(m: seq<byte>, base: nat, l: Layout, name: seq<byte>, parsed: seq<seq<byte>>, size: nat)
    requires 0 !in name && (size == 4 || size == 16) && (forall k :: 0 <= k < |parsed| ==> |parsed[k]| == size)
    requires 0 < base && base + |m| < TWO_64 && l.total <= |m| && Separate(l, |name|, |parsed|, size)
    requires Filled(m, l, name, PointerWords(base, l, size, |parsed|), parsed, size, |parsed|)
    ensures ReadCString(m, 0) == Some(name)
    ensures ReadPointers(m, l.aliases) == Some([])
    ensures ReadPointers(m, l.list) == Some(AddrPointers(base, l, size, 0, |parsed|))
    ensures ReadAddresses(m, base, AddrPointers(base, l, size, 0, |parsed|), size) == Some(parsed)
  {
    assert ReadCString(m, 0) == Some(name) by { ReadName(m, 0, name); }
    assert ReadPointers(m, l.aliases) == Some([]) by { ReadNull(m, l.aliases); }
    assert ReadPointers(m, l.list) == Some(AddrPointers(base, l, size, 0, |parsed|)) by {
      ReadPointerTable(m, base, l, name, parsed, size, 0);
    }
    assert ReadAddresses(m, base, AddrPointers(base, l, size, 0, |parsed|), size) == Some(parsed) by {
      ReadAddressData(m, base, l, parsed, size, 0);
      assert parsed[0..] == parsed;
    }
  }

  /** Round trip: reading a packed buffer back gives the name, no aliases, and exactly the addresses
      that parse for the family, in order. */
  lemma PackedReadsBack(m: seq<byte>, base: nat, name: seq<byte>, parsed: seq<seq<byte>>, af: Family)
    requires 0 !in name && (forall k :: 0 <= k < |parsed| ==> |parsed[k]| == AddrSize(af))
    requires 0 < base && base + |m| < TWO_64
    requires var l := LayoutFor(|name|, |parsed|, AddrSize(af));
             l.total <= |m| &&
             Filled(m, l, name, PointerWords(base, l, AddrSize(af), |parsed|), parsed, AddrSize(af), |parsed|)
    ensures ReadEntry(m, base, EntryAt(base, LayoutFor(|name|, |parsed|, AddrSize(af)), af)) ==
            Some(Entry(name, [], parsed))
  {
    var size := AddrSize(af);
    var l := LayoutFor(|name|, |parsed|, size);
    LayoutSeparate(|name|, |parsed|, size);
    PartsReadBack(m, base, l, name, parsed, size);
    EntryFromParts(m, base, EntryAt(base, l, af), name, AddrPointers(base, l, size, 0, |parsed|), parsed);
  }

  lemma PackedParsedReadsBack(m: seq<byte>, base: nat, name: seq<byte>, pton: Pton, af: Family, addrs: seq<AddrText>)
    requires SizedPton(pton) && 0 !in name && 0 < base && base + |m| < TWO_64
    requires var parsed := Parsed(pton, af, addrs);
             var l := LayoutFor(|name|, |parsed|, AddrSize(af));
             l.total <= |m| &&
             Filled(m, l, name, PointerWords(base, l, AddrSize(af), |parsed|), parsed, AddrSize(af), |parsed|)
    ensures var parsed := Parsed(pton, af, addrs);
            ReadEntry(m, base, EntryAt(base, LayoutFor(|name|, |parsed|, AddrSize(af)), af)) ==
            Some(Entry(name, [], parsed))
  {
    ParsedSizes(pton, af, addrs);
    PackedReadsBack(m, base, name, Parsed(pton, af, addrs), af);
  }
}
