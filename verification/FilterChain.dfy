/** The filter chain. */
module FilterChain {
  // The filter-header accumulator: an array that grows by doubling up to a cap.

  import opened FixedWidth
  import opened LittleEndian
  import opened Options
  import Spec = FilterHeaders

  type Hash = Spec.Hash

  class Chain {
    var filterType: u8
    var startHeight: u32
    var anchorPrevHeader: Hash
    var headers: array<Hash>
    var count: nat

    ghost predicate Valid()
      reads this, headers
    {
      count <= headers.Length <= Spec.CHAIN_MAX
    }

    ghost function View(): (s: Spec.State)
      requires Valid()
      reads this, headers
      ensures |s.headers| == count
    {
      Spec.State(filterType, startHeight, anchorPrevHeader, headers[..count])
    }

    constructor (filterType: u8, startHeight: u32, anchorPrevHeader: Hash)
      ensures Valid() && View() == Spec.NewChain(filterType, startHeight, anchorPrevHeader).s && fresh(headers)
    {
      this.filterType, this.startHeight, this.anchorPrevHeader := filterType, startHeight, anchorPrevHeader;
      headers := new Hash[0];
      count := 0;
    }

    method NextHeight() returns (height: u32)
      requires Valid()
      ensures height == Spec.NextHeight(View())
    {
      height := Wrap32(startHeight + count);
    }

    method TipHeader() returns (tip: Hash)
      requires Valid()
      ensures tip == Spec.Tip(View())
    {
      if count == 0 { return anchorPrevHeader; }
      tip := headers[count - 1];
    }

    method Header(height: u32) returns (h: Hash)
      requires Valid()
      ensures h == Spec.HeaderAt(View(), height)
    {
      if startHeight > 0 && height == startHeight - 1 { return anchorPrevHeader; }
      if height < startHeight { return Spec.ZeroHash(); }
      var idx := height - startHeight;
      if idx >= count { return Spec.ZeroHash(); }
      h := headers[idx];
    }

    /** Room for `need` headers, by doubling; refused only past the cap. */
    method Reserve(need: nat) returns (ok: bool)
      requires Valid()
      modifies this`headers
      ensures Valid() && View() == old(View()) && (headers == old(headers) || fresh(headers))
      ensures ok <==> need <= Spec.CHAIN_MAX
      ensures ok ==> need <= headers.Length
    {
      if need > Spec.CHAIN_MAX { return false; }
      if need <= headers.Length { return true; }
      var newCap := if headers.Length != 0 then headers.Length else 64;
      while newCap < need
        invariant newCap <= Spec.CHAIN_MAX && newCap > 0 && newCap >= headers.Length
        decreases need - newCap
      {
        if newCap > Spec.CHAIN_MAX / 2 {
          newCap := Spec.CHAIN_MAX;
          break;
        }
        newCap := newCap * 2;
      }
      if newCap < need { return false; }
      var resized := new Hash[newCap](_ => Spec.ZeroHash());
      forall i | 0 <= i < headers.Length { resized[i] := headers[i]; }
      assert resized[..count] == headers[..count];
      headers := resized;
      return true;
    }

    method AppendEx(header: Spec.HeaderHash, prevFilterHeader: Hash, filterHashes: seq<Hash>) returns (r: Spec.Verdict)
      requires Valid()
      modifies this, headers
      ensures Valid() && (headers == old(headers) || fresh(headers))
      ensures r == Spec.AppendVerdict(old(View()), prevFilterHeader, |filterHashes|)
      ensures View() == Spec.Append(header, old(View()), prevFilterHeader, filterHashes)
    {
      if |filterHashes| == 0 {
        NothingAppended(header, View(), prevFilterHeader);
        return Spec.Ok;
      }
      var tip := TipHeader();
      if prevFilterHeader != tip { return Spec.Mismatch; }
      var need := count + |filterHashes|;
      var room := Reserve(need);
      if !room { return Spec.Limit; }
      Fill(header, tip, filterHashes);
      count := need;
      return Spec.Ok;
    }

    /** Folds the hashes into the slots after the last header. */
    method Fill(header: Spec.HeaderHash, tip: Hash, filterHashes: seq<Hash>)
      requires Valid() && count + |filterHashes| <= headers.Length
      modifies headers
      ensures headers[..count + |filterHashes|] == old(headers[..count]) + Spec.Fold(header, tip, filterHashes)
    {
      var prev := tip;
      var i := 0;
      ghost var was := headers[..count];
      assert filterHashes[..0] == [];
      assert headers[..count + i] == was + Spec.Fold(header, tip, filterHashes[..0]);
      hide Spec.Fold;
      while i < |filterHashes|
        invariant i <= |filterHashes|
        invariant headers[..count + i] == was + Spec.Fold(header, tip, filterHashes[..i])
        invariant prev == Spec.Last(tip, Spec.Fold(header, tip, filterHashes[..i]))
      {
        FoldNext(header, tip, filterHashes, i);
        var hdr := header(filterHashes[i], prev);
        headers[count + i] := hdr;
        prev := hdr;
        i := i + 1;
        assert headers[..count + i] == headers[..count + i - 1] + [hdr];
      }
      assert filterHashes[..i] == filterHashes;
    }

    method Truncate(nextHeight: u32) returns (ok: bool)
      requires Valid()
      modifies this`count
      ensures Valid()
      ensures ok == Spec.CanTruncate(old(View()), nextHeight) && View() == Spec.Truncate(old(View()), nextHeight)
    {
      if nextHeight < startHeight { return false; }
      var keep := nextHeight - startHeight;
      if keep > count { return false; }
      assert headers[..keep] == headers[..count][..keep];
      count := keep;
      return true;
    }

    /** Moves the headers from `drop` on to the front. */
    method ShiftDown(drop: nat)
      requires Valid() && drop <= count
      modifies headers
      ensures headers[..count - drop] == old(headers[..count])[drop..]
    {
      ghost var was := headers[..count];
      forall i | 0 <= i < count - drop { headers[i] := headers[drop + i]; }
      assert forall k :: 0 <= k < count - drop ==> headers[k] == was[drop + k];
    }

    method DropBelow(newStart: u32) returns (drop: nat)
      requires Valid()
      modifies this, headers
      ensures Valid() && headers == old(headers)
      ensures drop == (if Spec.CanDrop(old(View()), newStart) then newStart - old(startHeight) else 0)
      ensures View() == Spec.DropBelow(old(View()), newStart)
    {
      if newStart <= startHeight { return 0; }
      drop := newStart - startHeight;
      if drop > count { return 0; }
      anchorPrevHeader := headers[drop - 1];
      ghost var was := headers[..count];
      if count > drop { ShiftDown(drop); }
      count := count - drop;
      startHeight := newStart;
      assert headers[..count] == was[drop..];
    }

    method VerifyFilter(header: Spec.HeaderHash, digest: bytes -> Hash, height: u32, encoded: bytes) returns (ok: bool)
      requires Valid()
      ensures ok <==> Spec.Verifies(header, digest, View(), height, encoded)
    {
      if height < startHeight { return false; }
      var idx := height - startHeight;
      if idx >= count { return false; }
      var filterHash := digest(encoded);
      var prev := if height == startHeight then anchorPrevHeader else headers[idx - 1];
      var recomputed := header(filterHash, prev);
      return recomputed == headers[idx];
    }

    /** Folds the batch without storing it and compares each header with every checkpoint at its height. */
    method BatchViolates(header: Spec.HeaderHash, filterHashes: seq<Hash>, cps: seq<Spec.Checkpoint>)
      returns (r: Option<Spec.Violation>)
      requires Valid()
      ensures Spec.Reports(View(), Spec.Fold(header, Spec.Tip(View()), filterHashes), cps, r)
    {
      ghost var s := View();
      ghost var folded := Spec.Fold(header, Spec.Tip(s), filterHashes);
      hide Spec.Fold;
      if |cps| == 0 {
        assert forall i :: 0 <= i < |folded| ==> !Spec.Contradicted(s, folded, cps, i);
        return None;
      }
      var start := NextHeight();
      var h := TipHeader();
      var i := 0;
      while i < |filterHashes|
        invariant i <= |filterHashes|
        invariant h == Spec.Last(Spec.Tip(s), folded[..i])
        invariant forall j :: 0 <= j < i ==> !Spec.Contradicted(s, folded, cps, j)
      {
        FoldAt(header, Spec.Tip(s), filterHashes, i);
        h := header(filterHashes[i], h);
        var height := Wrap32(start + i);
        var bad := AnyDiffers(cps, height, h);
        assert bad == Spec.Contradicted(s, folded, cps, i) by { BadIsContradicted(s, folded, cps, i, height, h); }
        if bad {
          assert Spec.FirstContradicted(s, folded, cps, i);
          return Some(Spec.Violation(height, h));
        }
        i := i + 1;
      }
      return None;
    }

    /** Some checkpoint at this height has another header. */
    static method AnyDiffers(cps: seq<Spec.Checkpoint>, height: u32, h: Hash) returns (bad: bool)
      ensures bad <==> exists k :: 0 <= k < |cps| && cps[k].height == height && cps[k].filterHeader != h
    {
      var c := 0;
      while c < |cps|
        invariant c <= |cps|
        invariant forall k :: 0 <= k < c ==> !(cps[k].height == height && cps[k].filterHeader != h)
      {
        if cps[c].height == height && h != cps[c].filterHeader { return true; }
        c := c + 1;
      }
      return false;
    }

    /** Writes the chain's bytes when the buffer has room for them. */
    method Serialize(buf: array<u8>) returns (written: nat)
      requires Valid()
      modifies buf
      ensures var b := Spec.Bytes(View());
              if |b| <= buf.Length then written == |b| && buf[..] == b + old(buf[..])[written..]
              else written == 0 && buf[..] == old(buf[..])
    {
      hide PutU32, Spec.Joined;
      var need := Spec.HEADER_LEN + count * 32;
      if buf.Length < need { return 0; }
      ghost var was := buf[..];
      var off := Put(buf, 0, PutU32(Spec.MAGIC));
      off := Put(buf, off, [Spec.VERSION, filterType]);
      off := Put(buf, off, PutU32(startHeight));
      off := Put(buf, off, anchorPrevHeader.u8s);
      off := Put(buf, off, PutU32(count));
      assert buf[..off] == Spec.Prelude(View());
      written := PutHeaders(buf);
      assert buf[written..] == was[written..];
      assert buf[..] == buf[..written] + buf[written..];
    }

    static method Put(buf: array<u8>, off: nat, b: bytes) returns (end: nat)
      requires off + |b| <= buf.Length
      modifies buf
      ensures end == off + |b| && buf[..end] == old(buf[..off]) + b
      ensures forall k :: end <= k < buf.Length ==> buf[k] == old(buf[k])
    {
      forall i | 0 <= i < |b| { buf[off + i] := b[i]; }
      end := off + |b|;
      assert forall k :: 0 <= k < off ==> buf[k] == old(buf[k]);
    }

    method PutHeaders(buf: array<u8>) returns (end: nat)
      requires Valid() && Spec.HEADER_LEN + count * 32 <= buf.Length
      modifies buf
      ensures end == Spec.HEADER_LEN + count * 32
      ensures forall k :: end <= k < buf.Length ==> buf[k] == old(buf[k])
      ensures buf[..end] == old(buf[..Spec.HEADER_LEN]) + Spec.Joined(headers[..count])
    {
      var i := 0;
      end := Spec.HEADER_LEN;
      ghost var was := buf[..];
      assert buf[..end] == was[..Spec.HEADER_LEN] + Spec.Joined(headers[..0]);
      while i < count
        invariant i <= count && end == Spec.HEADER_LEN + i * 32
        invariant buf[..end] == was[..Spec.HEADER_LEN] + Spec.Joined(headers[..i])
        invariant forall k :: end <= k < buf.Length ==> buf[k] == was[k]
      {
        assert headers[..i + 1][..i] == headers[..i];
        end := Put(buf, end, headers[i].u8s);
        i := i + 1;
      }
    }

    static method Deserialize(b: bytes) returns (chain: Option<Chain>)
      ensures chain.Some? <==> Spec.Deserialized(b).Some?
      ensures chain.Some? ==>
                  fresh(chain.value) && chain.value.Valid() && chain.value.View() == Spec.Deserialized(b).value
    {
      hide GetU32;
      if |b| < Spec.HEADER_LEN { return None; }
      if GetU32(b, 0) != Spec.MAGIC { return None; }
      if b[4] != Spec.VERSION { return None; }
      var count := GetU32(b, 42);
      if count > Spec.CHAIN_MAX { return None; }
      if |b| < Spec.HEADER_LEN + count * 32 { return None; }
      var c := new Chain(b[5], GetU32(b, 6), Spec.UInt256(b[10..42]));
      if count > 0 {
        var room := c.Reserve(count);
        c.Load(b, count);
      }
      chain := Some(c);
    }

    method Load(b: bytes, n: nat)
      requires Valid() && n <= headers.Length && Spec.HEADER_LEN + n * 32 <= |b|
      modifies headers, this`count
      ensures Valid() && headers[..count] == Spec.SplitHeaders(b, Spec.HEADER_LEN, n) && count == n
    {
      var i := 0;
      while i < n
        invariant i <= n && headers[..i] == Spec.SplitHeaders(b, Spec.HEADER_LEN, i)
      {
        headers[i] := Spec.UInt256(b[Spec.HEADER_LEN + 32 * i..Spec.HEADER_LEN + 32 * (i + 1)]);
        i := i + 1;
      }
      count := n;
    }
  }

  lemma NothingAppended(header: Spec.HeaderHash, s: Spec.State, prev: Hash)
    ensures Spec.Append(header, s, prev, []) == s
  {
    assert s.headers + [] == s.headers;
  }

  lemma FoldNext(header: Spec.HeaderHash, tip: Hash, hashes: seq<Hash>, i: nat)
    requires i < |hashes|
    ensures var f := Spec.Fold(header, tip, hashes[..i]);
            Spec.Fold(header, tip, hashes[..i + 1]) == f + [header(hashes[i], Spec.Last(tip, f))]
  {
    var prev := Spec.Last(tip, Spec.Fold(header, tip, hashes[..i]));
    assert hashes[..i + 1] == hashes[..i] + [hashes[i]];
    Spec.FoldConcat(header, tip, hashes[..i], [hashes[i]]);
    assert Spec.Fold(header, header(hashes[i], prev), []) == [];
    assert [hashes[i]][1..] == [];
  }

  lemma FoldAt(header: Spec.HeaderHash, tip: Hash, hashes: seq<Hash>, i: nat)
    requires i < |hashes|
    ensures var f := Spec.Fold(header, tip, hashes);
            f[i] == header(hashes[i], Spec.Last(tip, f[..i])) && f[i] == Spec.Last(tip, f[..i + 1])
  {
    var f := Spec.Fold(header, tip, hashes);
    FoldNext(header, tip, hashes, i);
    Spec.FoldPrefix(header, tip, hashes, i);
    Spec.FoldPrefix(header, tip, hashes, i + 1);
    assert f[..i + 1][i] == f[i];
  }

  lemma BadIsContradicted(s: Spec.State, folded: seq<Hash>, cps: seq<Spec.Checkpoint>, i: nat, height: u32, h: Hash)
    requires i < |folded| && height == Wrap32(Spec.NextHeight(s) + i) && h == folded[i]
    ensures Spec.Contradicted(s, folded, cps, i) <==>
                exists k :: 0 <= k < |cps| && cps[k].height == height && cps[k].filterHeader != h
  {
    hide Spec.NextHeight, Wrap32;
    if k :| 0 <= k < |cps| && cps[k].height == height && cps[k].filterHeader != h {
      assert Spec.Contradicts(s, folded, cps[k], i);
    }
  }
}
