/** The sample histograms (`WAVHist`): one count map per channel, filled
    from interleaved blocks, plus the mid `(L + R) / 2` and side
    `(L - R) / 2` maps of stereo audio, each listed in ascending key order. */
module WavHist {
  import opened Common

  /** Occurrence counts per sample value. */
  type Histogram = map<Int16, nat>

  /** The three kinds of maps the class keeps. */
  datatype HistState = HistState(counts: seq<Histogram>, mid: Histogram, side: Histogram)

  /** What a dump prints: the `(value, count)` lines, and whether it reported that there was no data instead. */
  datatype Dump = Dump(lines: seq<(Int16, nat)>, noData: bool)

  /** The count of `v`; a missing key reads as zero, as `operator[]` default-inserts it. */
  function Count(h: Histogram, v: Int16): nat
  {
    if v in h then h[v] else 0
  }

  /** One `h[v]++`. */
  function Bump(h: Histogram, v: Int16): (r: Histogram)
    ensures r.Keys == h.Keys + {v}
    ensures Count(r, v) == Count(h, v) + 1
    ensures forall k :: k in h && k != v ==> r[k] == h[k]
  {
    h[v := Count(h, v) + 1]
  }

  /** The counts after bumping every value of `vs` in order. */
  function AddAll(h: Histogram, vs: seq<Int16>): Histogram
    decreases |vs|
  {
    if |vs| == 0 then h else AddAll(Bump(h, vs[0]), vs[1..])
  }

  /** Counting a sequence adds a key exactly for each value seen. */
  lemma {:induction false} AddAllKeys(h: Histogram, vs: seq<Int16>)
    ensures AddAll(h, vs).Keys == h.Keys + set x | x in vs
    decreases |vs|
  {
    if |vs| > 0 {
      AddAllKeys(Bump(h, vs[0]), vs[1..]);
      assert forall x :: x in vs <==> x == vs[0] || x in vs[1..];
    }
  }

  /** Counting a sequence adds each value's multiplicity, and keys appear exactly for the values seen. */
  lemma {:induction false} AddAllCounts(h: Histogram, vs: seq<Int16>, v: Int16)
    ensures Count(AddAll(h, vs), v) == Count(h, v) + multiset(vs)[v]
    ensures AddAll(h, vs).Keys == h.Keys + set x | x in vs
    decreases |vs|
  {
    AddAllKeys(h, vs);
    if |vs| > 0 {
      AddAllCounts(Bump(h, vs[0]), vs[1..], v);
      assert vs == [vs[0]] + vs[1..];
    }
  }

  /** A fresh object: one empty map per channel, empty mid and side maps. */
  function Init(channels: nat): (s: HistState)
    ensures |s.counts| == channels
    ensures forall c :: 0 <= c < channels ==> s.counts[c] == map[]
    ensures s.mid == map[] && s.side == map[]
  {
    HistState(seq(channels, _ => map[]), map[], map[])
  }

  /** The samples of `block` that land in channel `c`, when the block's first sample has running index `n`. */
  function ChannelFrom(block: seq<Int16>, n: nat, channels: nat, c: nat): seq<Int16>
    requires channels >= 1
  {
    if |block| == 0 then []
    else (if n % channels == c then [block[0]] else []) + ChannelFrom(block[1..], n + 1, channels, c)
  }

  /** The running loop of `update` from index `n`: sample `i` goes to map `(n + i) % channels`. */
  function UpdateFrom(counts: seq<Histogram>, block: seq<Int16>, n: nat): (r: seq<Histogram>)
    requires |counts| >= 1 || |block| == 0
    ensures |r| == |counts|
    decreases |block|
  {
    if |block| == 0 then counts
    else
      var c := n % |counts|;
      UpdateFrom(counts[c := Bump(counts[c], block[0])], block[1..], n + 1)
  }

  /** `update`: the running index restarts at zero on every call. Without channels only an empty block is
      defined, since the index is reduced modulo the channel count. */
  function Update(s: HistState, block: seq<Int16>): (r: HistState)
    requires |s.counts| >= 1 || |block| == 0
    ensures |r.counts| == |s.counts| && r.mid == s.mid && r.side == s.side
    ensures |block| == 0 ==> r == s
  {
    s.(counts := UpdateFrom(s.counts, block, 0))
  }

  /** The running loop fills each channel's map with exactly that channel's samples. */
  lemma {:induction false} UpdateFromPerChannel(counts: seq<Histogram>, block: seq<Int16>, n: nat, c: nat)
    requires |counts| >= 1 && c < |counts|
    ensures UpdateFrom(counts, block, n)[c] == AddAll(counts[c], ChannelFrom(block, n, |counts|, c))
    decreases |block|
  {
    if |block| > 0 {
      var k := n % |counts|;
      var counts' := counts[k := Bump(counts[k], block[0])];
      UpdateFromPerChannel(counts', block[1..], n + 1, c);
      var rest := ChannelFrom(block[1..], n + 1, |counts|, c);
      if k == c {
        assert ChannelFrom(block, n, |counts|, c) == [block[0]] + rest;
        assert ([block[0]] + rest)[1..] == rest;
      } else {
        assert ChannelFrom(block, n, |counts|, c) == rest;
      }
    }
  }

  /** After `update`, the count of `v` in channel `c` grew by the number of times `v` occurs among that channel's samples. */
  lemma UpdateCounts(s: HistState, block: seq<Int16>, c: nat, v: Int16)
    requires |s.counts| >= 1 && c < |s.counts|
    ensures Count(Update(s, block).counts[c], v) == Count(s.counts[c], v) + multiset(ChannelFrom(block, 0, |s.counts|, c))[v]
  {
    UpdateFromPerChannel(s.counts, block, 0, c);
    AddAllCounts(s.counts[c], ChannelFrom(block, 0, |s.counts|, c), v);
  }

  /** The combined size of the shares of channels `0 .. k`. */
  function ShareSizes(block: seq<Int16>, n: nat, channels: nat, k: nat): nat
    requires channels >= 1
  {
    if k == 0 then 0 else ShareSizes(block, n, channels, k - 1) + |ChannelFrom(block, n, channels, k - 1)|
  }

  /** Every sample of a block lands in exactly one channel, so one `update` adds `|block|` counts in all. */
  lemma {:induction false} SharesPartition(block: seq<Int16>, n: nat, channels: nat)
    requires channels >= 1
    ensures ShareSizes(block, n, channels, channels) == |block|
    decreases |block|
  {
    if |block| == 0 {
      NoShares(block, n, channels, channels);
    } else {
      SharesPartition(block[1..], n + 1, channels);
      ShareSizesStep(block, n, channels, channels);
    }
  }

  lemma {:induction false} NoShares(block: seq<Int16>, n: nat, channels: nat, k: nat)
    requires channels >= 1 && |block| == 0
    ensures ShareSizes(block, n, channels, k) == 0
  {
    if k > 0 {
      NoShares(block, n, channels, k - 1);
    }
  }

  /** The first sample of a block counts toward channel `n % channels` only. */
  lemma {:induction false} ShareSizesStep(block: seq<Int16>, n: nat, channels: nat, k: nat)
    requires channels >= 1 && |block| > 0
    ensures ShareSizes(block, n, channels, k)
         == ShareSizes(block[1..], n + 1, channels, k) + (if n % channels < k then 1 else 0)
  {
    if k > 0 {
      ShareSizesStep(block, n, channels, k - 1);
    }
  }

  /** Where a sample lands depends on its running index only modulo the channel count. */
  lemma {:induction false} ChannelFromShift(block: seq<Int16>, n: nat, m: nat, channels: nat, c: nat)
    requires channels >= 1 && n % channels == m % channels
    ensures ChannelFrom(block, n, channels, c) == ChannelFrom(block, m, channels, c)
  {
    if |block| > 0 {
      ModStep(n, channels);
      ModStep(m, channels);
      ChannelFromShift(block[1..], n + 1, m + 1, channels, c);
    }
  }

  /** Splitting a block splits each channel's share at the same place. */
  lemma {:induction false} ChannelFromAppend(a: seq<Int16>, b: seq<Int16>, n: nat, channels: nat, c: nat)
    requires channels >= 1
    ensures ChannelFrom(a + b, n, channels, c) == ChannelFrom(a, n, channels, c) + ChannelFrom(b, n + |a|, channels, c)
  {
    if |a| > 0 {
      assert (a + b)[1..] == a[1..] + b;
      ChannelFromAppend(a[1..], b, n + 1, channels, c);
    } else {
      assert a + b == b;
    }
  }

  /** Two whole-frame blocks count as one: when the first block holds a whole number of frames the restart of the running index is invisible. */
  lemma UpdateWholeFrames(s: HistState, a: seq<Int16>, b: seq<Int16>, c: nat)
    requires |s.counts| >= 1 && c < |s.counts| && |a| % |s.counts| == 0
    ensures Update(Update(s, a), b).counts[c] == Update(s, a + b).counts[c]
  {
    var ch := |s.counts|;
    UpdateFromPerChannel(s.counts, a + b, 0, c);
    UpdateFromPerChannel(s.counts, a, 0, c);
    UpdateFromPerChannel(Update(s, a).counts, b, 0, c);
    ChannelFromAppend(a, b, 0, ch, c);
    assert 0 % ch == 0;
    ChannelFromShift(b, |a|, 0, ch, c);
    AddAllConcat(s.counts[c], ChannelFrom(a, 0, ch, c), ChannelFrom(b, 0, ch, c));
  }

  /** Counting two sequences in turn is counting their concatenation. */
  lemma {:induction false} AddAllConcat(h: Histogram, xs: seq<Int16>, ys: seq<Int16>)
    ensures AddAll(AddAll(h, xs), ys) == AddAll(h, xs + ys)
    decreases |xs|
  {
    if |xs| > 0 {
      assert (xs + ys)[1..] == xs[1..] + ys;
      AddAllConcat(Bump(h, xs[0]), xs[1..], ys);
    } else {
      assert xs + ys == ys;
    }
  }

  /** A block that splits a frame shifts the next block's samples to other channels. */
  lemma UpdateSplitFrame()
    ensures var s := Init(2);
            && Update(Update(s, [1]), [2]).counts[0] == map[1 := 1, 2 := 1]
            && Update(s, [1, 2]).counts[0] == map[1 := 1]
  {
    var s := Init(2);
    assert Update(s, [1]).counts == [map[1 := 1], map[]];
    assert Update(Update(s, [1]), [2]).counts == [map[1 := 1, 2 := 1], map[]];
    assert [1, 2][1..] == [2];
    assert Update(s, [1, 2]).counts == [map[1 := 1], map[2 := 1]];
  }

  /** `(L + R) / 2` in `int`, truncated toward zero; it always fits the `short` key. */
  function Mid(l: Int16, r: Int16): Int16
  {
    Half(l + r)
  }

  /** `(L - R) / 2` in `int`, truncated toward zero; it always fits the `short` key. */
  function Side(l: Int16, r: Int16): Int16
  {
    Half(l - r)
  }

  /** The mid value of each frame. */
  function MidValues(block: seq<Int16>): (m: seq<Int16>)
    ensures |m| == |block| / 2
  {
    seq(|block| / 2, i requires 0 <= i < |block| / 2 => Mid(block[2 * i], block[2 * i + 1]))
  }

  /** The side value of each frame. */
  function SideValues(block: seq<Int16>): (m: seq<Int16>)
    ensures |m| == |block| / 2
  {
    seq(|block| / 2, i requires 0 <= i < |block| / 2 => Side(block[2 * i], block[2 * i + 1]))
  }

  /** `update_mid`: only stereo objects count; an odd trailing sample is ignored. */
  function UpdateMid(s: HistState, block: seq<Int16>): (r: HistState)
    ensures r.counts == s.counts && r.side == s.side
    ensures |s.counts| != 2 ==> r.mid == s.mid
    ensures |s.counts| == 2 ==> forall v :: Count(r.mid, v) == Count(s.mid, v) + multiset(MidValues(block))[v]
  {
    if |s.counts| != 2 then s
    else
      var mid := AddAll(s.mid, MidValues(block));
      assert forall v :: Count(mid, v) == Count(s.mid, v) + multiset(MidValues(block))[v] by {
        forall v { AddAllCounts(s.mid, MidValues(block), v); }
      }
      s.(mid := mid)
  }

  /** `update_side`: only stereo objects count; an odd trailing sample is ignored. */
  function UpdateSide(s: HistState, block: seq<Int16>): (r: HistState)
    ensures r.counts == s.counts && r.mid == s.mid
    ensures |s.counts| != 2 ==> r.side == s.side
    ensures |s.counts| == 2 ==> forall v :: Count(r.side, v) == Count(s.side, v) + multiset(SideValues(block))[v]
  {
    if |s.counts| != 2 then s
    else
      var side := AddAll(s.side, SideValues(block));
      assert forall v :: Count(side, v) == Count(s.side, v) + multiset(SideValues(block))[v] by {
        forall v { AddAllCounts(s.side, SideValues(block), v); }
      }
      s.(side := side)
  }

  /** A mid value lies between the two samples it averages. */
  lemma MidBetween(l: Int16, r: Int16)
    ensures Min(l, r) <= Mid(l, r) <= Max(l, r)
  {
  }

  /** Swapping the channels negates every side value. */
  lemma SideAntisymmetric(l: Int16, r: Int16)
    ensures Side(r, l) == -Side(l, r)
  {
  }

  /** A side value is zero exactly when the two samples differ by at most one. */
  lemma SideZero(l: Int16, r: Int16)
    ensures Side(l, r) == 0 <==> -1 <= l - r <= 1
  {
  }

  /** The entries of `h` with key at least `lo`, in ascending key order, as iterating a `std::map` visits them. */
  function ListFrom(h: Histogram, lo: int): seq<(Int16, nat)>
    requires -32768 <= lo <= 32768
    decreases 32768 - lo
  {
    if lo == 32768 then []
    else (if lo in h then [(lo as Int16, h[lo])] else []) + ListFrom(h, lo + 1)
  }

  /** The whole map in ascending key order. */
  function Listing(h: Histogram): seq<(Int16, nat)>
  {
    ListFrom(h, -32768)
  }

  /** The listing holds exactly the map's entries. */
  lemma {:induction false} ListFromComplete(h: Histogram, lo: int, k: Int16, n: nat)
    requires -32768 <= lo <= 32768
    ensures (k, n) in ListFrom(h, lo) <==> lo <= k && k in h && h[k] == n
    decreases 32768 - lo
  {
    if lo < 32768 {
      ListFromComplete(h, lo + 1, k, n);
    }
  }

  /** The listing's keys strictly increase and none lies below `lo`. */
  lemma {:induction false} ListFromSorted(h: Histogram, lo: int)
    requires -32768 <= lo <= 32768
    ensures forall i :: 0 <= i < |ListFrom(h, lo)| ==> lo <= ListFrom(h, lo)[i].0
    ensures forall i, j :: 0 <= i < j < |ListFrom(h, lo)| ==> ListFrom(h, lo)[i].0 < ListFrom(h, lo)[j].0
    decreases 32768 - lo
  {
    if lo < 32768 {
      ListFromSorted(h, lo + 1);
    }
  }

  /** Lines listed in strictly ascending value order. */
  predicate Ascending(lines: seq<(Int16, nat)>)
  {
    forall i, j :: 0 <= i < j < |lines| ==> lines[i].0 < lines[j].0
  }

  /** `dump(channel)`: the channel's map, ascending; a channel outside the object is undefined in the source. */
  function DumpChannel(s: HistState, channel: nat): (d: Dump)
    requires channel < |s.counts|
    ensures !d.noData
    ensures forall k: Int16, n: nat :: (k, n) in d.lines <==> k in s.counts[channel] && s.counts[channel][k] == n
    ensures Ascending(d.lines)
  {
    var d := Dump(Listing(s.counts[channel]), false);
    ListFromSorted(s.counts[channel], -32768);
    assert forall k: Int16, n: nat :: (k, n) in d.lines <==> k in s.counts[channel] && s.counts[channel][k] == n by {
      forall k: Int16, n: nat { ListFromComplete(s.counts[channel], -32768, k, n); }
    }
    d
  }

  /** `mid_dump`: an empty map is reported instead of listed. */
  function MidDump(s: HistState): (d: Dump)
    ensures d.noData <==> |s.mid| == 0
    ensures forall k: Int16, n: nat :: (k, n) in d.lines <==> k in s.mid && s.mid[k] == n
    ensures Ascending(d.lines)
  {
    ListFromSorted(s.mid, -32768);
    assert forall k: Int16, n: nat :: (k, n) in Listing(s.mid) <==> k in s.mid && s.mid[k] == n by {
      forall k: Int16, n: nat { ListFromComplete(s.mid, -32768, k, n); }
    }
    if |s.mid| == 0 then Dump([], true) else Dump(Listing(s.mid), false)
  }

  /** `side_dump`: an empty map is reported instead of listed. */
  function SideDump(s: HistState): (d: Dump)
    ensures d.noData <==> |s.side| == 0
    ensures forall k: Int16, n: nat :: (k, n) in d.lines <==> k in s.side && s.side[k] == n
    ensures Ascending(d.lines)
  {
    ListFromSorted(s.side, -32768);
    assert forall k: Int16, n: nat :: (k, n) in Listing(s.side) <==> k in s.side && s.side[k] == n by {
      forall k: Int16, n: nat { ListFromComplete(s.side, -32768, k, n); }
    }
    if |s.side| == 0 then Dump([], true) else Dump(Listing(s.side), false)
  }
}
