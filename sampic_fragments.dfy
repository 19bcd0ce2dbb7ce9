/** What ConvertBlock does to a well-formed word stream. A fragment is an
    event header, one channel stream per bit set in the header's channel
    bitmap, and a trailer; a block is fragments laid end to end. */
module SampicFragments {
  import opened Bytes
  import opened SampicDataFormat
  import opened SampicEvent

  datatype Fragment = Fragment(header: EventHeader, streams: seq<ChannelStream>, trailer: EventTrailer)

  /** The fragment carries exactly as many channel streams as its bitmap
      announces. */
  predicate WellFormed(f: Fragment)
  {
    |f.streams| == Popcount(ActiveChannels(f.header))
  }

  /** Every fragment is well formed and closed by a valid trailer. */
  predicate AllWellFormed(fs: seq<Fragment>)
  {
    fs == [] || (WellFormed(fs[0]) && TrailerValid(fs[0].trailer) && AllWellFormed(fs[1..]))
  }

  function StreamsWords(cs: seq<ChannelStream>): (w: seq<Word16>)
    ensures |w| == ChannelStreamSize * |cs|
  {
    if cs == [] then [] else ChannelStreamWords(cs[0]) + StreamsWords(cs[1..])
  }

  function FragmentWords(f: Fragment): (w: seq<Word16>)
  {
    f.header + StreamsWords(f.streams) + f.trailer
  }

  function FragmentsWords(fs: seq<Fragment>): (w: seq<Word16>)
  {
    if fs == [] then [] else FragmentWords(fs[0]) + FragmentsWords(fs[1..])
  }

  /** Every channel stream of every fragment, in order of appearance. */
  function AllStreams(fs: seq<Fragment>): seq<ChannelStream>
  {
    if fs == [] then [] else fs[0].streams + AllStreams(fs[1..])
  }

  /** The contents after reading fragment f on top of st: header and
      trailer replaced, streams appended. */
  function Absorb(st: Contents, f: Fragment): Contents
  {
    Contents(f.header, st.streams + f.streams, f.trailer)
  }

  function AbsorbAll(st: Contents, fs: seq<Fragment>): Contents
    decreases fs
  {
    if fs == [] then st else AbsorbAll(Absorb(st, fs[0]), fs[1..])
  }

  /** A well-formed fragment takes 12 + 73 * popcount + 1 words. */
  lemma FragmentSize(f: Fragment)
    requires WellFormed(f)
    ensures |FragmentWords(f)| == EventHeaderSize + ChannelStreamSize * Popcount(ActiveChannels(f.header)) + EventTrailerSize
  {
  }

  /** After all the fragments, the streams are every fragment's streams in
      order, and the header and trailer are the last fragment's. */
  lemma {:induction false} AbsorbAllContents(st: Contents, fs: seq<Fragment>)
    ensures AbsorbAll(st, fs).streams == st.streams + AllStreams(fs)
    ensures fs != [] ==> AbsorbAll(st, fs).header == fs[|fs| - 1].header
    ensures fs != [] ==> AbsorbAll(st, fs).trailer == fs[|fs| - 1].trailer
    ensures fs == [] ==> AbsorbAll(st, fs) == st
    decreases fs
  {
    if fs != [] {
      AbsorbAllContents(Absorb(st, fs[0]), fs[1..]);
      assert st.streams + fs[0].streams + AllStreams(fs[1..]) == st.streams + (fs[0].streams + AllStreams(fs[1..]));
    }
  }

  /** Reading the channel streams cs that lie at pos appends them in order
      and moves past them. */
  lemma {:induction false} WalkStreams(ws: seq<Word16>, pos: nat, cs: seq<ChannelStream>, m: nat, st: Contents)
    requires pos + |StreamsWords(cs)| <= |ws|
    requires ws[pos..pos + |StreamsWords(cs)|] == StreamsWords(cs)
    ensures WalkChannels(ws, pos, |cs| + m, st)
         == WalkChannels(ws, pos + |StreamsWords(cs)|, m, st.(streams := st.streams + cs))
    decreases cs
  {
    if cs != [] {
      StreamsAtFront(ws, pos, cs);
      var st1 := st.(streams := st.streams + [StreamAt(ws, pos)]);
      WalkChannelsAtStream(ws, pos, |cs| + m, st);
      WalkStreams(ws, pos + ChannelStreamSize, cs[1..], m, st1);
      assert st1.streams + cs[1..] == st.streams + cs;
    } else {
      assert st.(streams := st.streams + cs) == st;
    }
  }

  /** The first of the channel streams cs at pos, and where the rest lie. */
  lemma StreamsAtFront(ws: seq<Word16>, pos: nat, cs: seq<ChannelStream>)
    requires cs != []
    requires pos + |StreamsWords(cs)| <= |ws|
    requires ws[pos..pos + |StreamsWords(cs)|] == StreamsWords(cs)
    ensures pos + ChannelStreamSize <= |ws| && StreamAt(ws, pos) == cs[0]
    ensures pos + ChannelStreamSize + |StreamsWords(cs[1..])| == pos + |StreamsWords(cs)|
    ensures ws[pos + ChannelStreamSize..pos + ChannelStreamSize + |StreamsWords(cs[1..])|] == StreamsWords(cs[1..])
  {
    var sw := StreamsWords(cs);
    var rw := StreamsWords(cs[1..]);
    assert sw == ChannelStreamWords(cs[0]) + rw;
    assert ws[pos..pos + ChannelStreamSize] == ChannelStreamWords(cs[0]) by {
      SliceOfSlice(ws, pos, pos + |sw|, 0, ChannelStreamSize);
      assert sw[0..ChannelStreamSize] == ChannelStreamWords(cs[0]);
    }
    StreamAtWords(ws, pos);
    ChannelStreamWordsInjective(StreamAt(ws, pos), cs[0]);
    SliceOfSlice(ws, pos, pos + |sw|, ChannelStreamSize, |sw|);
    assert sw[ChannelStreamSize..|sw|] == rw;
  }

  lemma SliceOfSlice(s: seq<Word16>, a: nat, b: nat, c: nat, d: nat)
    requires a <= b <= |s| && c <= d <= b - a
    ensures s[a..b][c..d] == s[a + c..a + d]
  {
    var l, r := s[a..b][c..d], s[a + c..a + d];
    assert |l| == |r|;
    forall i | 0 <= i < |l| ensures l[i] == r[i] {
      assert l[i] == s[a..b][c + i] == s[a + c + i];
    }
  }

  /** A channel stream is determined by its 73 words. */
  lemma ChannelStreamWordsInjective(c: ChannelStream, d: ChannelStream)
    requires ChannelStreamWords(c) == ChannelStreamWords(d)
    ensures c == d
  {
    var w, v := ChannelStreamWords(c), ChannelStreamWords(d);
    assert c.header == w[..2] && d.header == v[..2];
    assert c.sampic.header == w[2..9] && d.sampic.header == v[2..9];
    assert c.sampic.samples == w[9..] && d.sampic.samples == v[9..];
  }

  /** One well-formed fragment at pos: its header is taken as is, its
      streams are appended, then its trailer decides. A valid trailer goes
      on with the next word; any other value ends the walk with that value,
      the fragment's streams already appended. */
  lemma WalkFragment(ws: seq<Word16>, pos: nat, f: Fragment, st: Contents)
    requires WellFormed(f)
    requires pos + |FragmentWords(f)| <= |ws|
    requires ws[pos..pos + |FragmentWords(f)|] == FragmentWords(f)
    ensures TrailerValid(f.trailer) ==> Walk(ws, pos, st) == Walk(ws, pos + |FragmentWords(f)|, Absorb(st, f))
    ensures !TrailerValid(f.trailer) ==> Walk(ws, pos, st) == Walked(Absorb(st, f), InvalidTrailer(f.trailer[0]))
  {
    FragmentParts(ws, pos, f);
    var body := pos + EventHeaderSize;
    var tail := body + |StreamsWords(f.streams)|;
    var st1 := st.(header := f.header);
    var st2 := st1.(streams := st.streams + f.streams);
    WalkAtHeader(ws, pos, st);
    WalkStreams(ws, body, f.streams, 0, st1);
    WalkChannelsAtTrailer(ws, tail, st2);
    assert st2.(trailer := [ws[tail]]) == Absorb(st, f);
  }

  /** Where the header, the streams and the trailer of a fragment at pos lie. */
  lemma FragmentParts(ws: seq<Word16>, pos: nat, f: Fragment)
    requires pos + |FragmentWords(f)| <= |ws|
    requires ws[pos..pos + |FragmentWords(f)|] == FragmentWords(f)
    ensures |FragmentWords(f)| == EventHeaderSize + |StreamsWords(f.streams)| + EventTrailerSize
    ensures ws[pos..pos + EventHeaderSize] == f.header
    ensures ws[pos + EventHeaderSize..pos + EventHeaderSize + |StreamsWords(f.streams)|] == StreamsWords(f.streams)
    ensures [ws[pos + EventHeaderSize + |StreamsWords(f.streams)|]] == f.trailer
  {
    var fw := FragmentWords(f);
    var sw := StreamsWords(f.streams);
    var body := pos + EventHeaderSize;
    var tail := body + |sw|;
    assert fw == f.header + sw + f.trailer;
    SliceOfSlice(ws, pos, pos + |fw|, 0, EventHeaderSize);
    assert fw[0..EventHeaderSize] == f.header;
    SliceOfSlice(ws, pos, pos + |fw|, EventHeaderSize, EventHeaderSize + |sw|);
    assert fw[EventHeaderSize..EventHeaderSize + |sw|] == sw;
    assert ws[tail] == fw[EventHeaderSize + |sw|];
  }

  /** Fragments laid end to end at pos, every one well formed and closed by
      a valid trailer, are read one after the other. */
  lemma {:induction false} WalkFragments(ws: seq<Word16>, pos: nat, fs: seq<Fragment>, st: Contents)
    requires AllWellFormed(fs)
    requires pos + |FragmentsWords(fs)| <= |ws|
    requires ws[pos..pos + |FragmentsWords(fs)|] == FragmentsWords(fs)
    ensures Walk(ws, pos, st) == Walk(ws, pos + |FragmentsWords(fs)|, AbsorbAll(st, fs))
    decreases fs
  {
    if fs != [] {
      var f, rest := fs[0], fs[1..];
      var next := pos + |FragmentWords(f)|;
      FragmentsAtFront(ws, pos, fs);
      WalkFragment(ws, pos, f, st);
      WalkFragments(ws, next, rest, Absorb(st, f));
      assert AbsorbAll(st, fs) == AbsorbAll(Absorb(st, f), rest);
    } else {
      assert FragmentsWords(fs) == [];
    }
  }

  /** The first of the fragments fs at pos, and where the rest lie. */
  lemma FragmentsAtFront(ws: seq<Word16>, pos: nat, fs: seq<Fragment>)
    requires fs != []
    requires pos + |FragmentsWords(fs)| <= |ws|
    requires ws[pos..pos + |FragmentsWords(fs)|] == FragmentsWords(fs)
    ensures pos + |FragmentWords(fs[0])| <= |ws|
    ensures ws[pos..pos + |FragmentWords(fs[0])|] == FragmentWords(fs[0])
    ensures pos + |FragmentWords(fs[0])| + |FragmentsWords(fs[1..])| == pos + |FragmentsWords(fs)|
    ensures ws[pos + |FragmentWords(fs[0])|..pos + |FragmentWords(fs[0])| + |FragmentsWords(fs[1..])|] == FragmentsWords(fs[1..])
  {
    var fw := FragmentWords(fs[0]);
    var more := FragmentsWords(fs[1..]);
    var all := FragmentsWords(fs);
    assert all == fw + more;
    SliceOfSlice(ws, pos, pos + |all|, 0, |fw|);
    assert all[0..|fw|] == fw;
    SliceOfSlice(ws, pos, pos + |all|, |fw|, |all|);
    assert all[|fw|..|all|] == more;
  }

  /** A block whose bytes encode whole valid fragments converts completely:
      every channel stream is appended in order, and header and trailer
      are the last fragment's. */
  lemma EncodedFragmentsConvert(fs: seq<Fragment>, st: Contents)
    requires AllWellFormed(fs)
    ensures Walk(Words16(Bytes16(FragmentsWords(fs))), 0, st) == Walked(AbsorbAll(st, fs), Converted)
    ensures Walk(Words16(Bytes16(FragmentsWords(fs))), 0, st).contents.streams == st.streams + AllStreams(fs)
  {
    var ws := FragmentsWords(fs);
    Words16OfBytes16(ws);
    FragmentsConvert(ws, fs, st);
    AbsorbAllContents(st, fs);
  }

  /** Only the trailer is checked: changing the begin marker of a fragment
      does not change what the walk does with it. */
  lemma BeginMarkerIgnored(ws: seq<Word16>, pos: nat, f: Fragment, x: Word16, st: Contents)
    requires WellFormed(f)
    requires pos + |FragmentWords(f)| <= |ws|
    requires ws[pos..pos + |FragmentWords(f)|] == FragmentWords(f)
    ensures
      var g := f.(header := f.header[0 := x]);
      var vs := ws[..pos] + FragmentWords(g) + ws[pos + |FragmentWords(f)|..];
      Walk(vs, pos, st).status == Walk(ws, pos, st).status
  {
    var g := f.(header := f.header[0 := x]);
    var fw, gw := FragmentWords(f), FragmentWords(g);
    var vs := ws[..pos] + gw + ws[pos + |fw|..];
    assert ActiveChannels(g.header) == ActiveChannels(f.header);
    assert |gw| == |fw|;
    assert vs[pos..pos + |gw|] == gw;
    assert vs[pos + |gw|..] == ws[pos + |fw|..];
    WalkFragment(ws, pos, f, st);
    WalkFragment(vs, pos, g, st);
    if TrailerValid(f.trailer) {
      WalkSuffix(ws, vs, pos + |fw|, Absorb(st, f), Absorb(st, g));
    }
  }

  /** The status of a walk depends only on the words from pos on. */
  lemma {:induction false} WalkSuffix(ws: seq<Word16>, vs: seq<Word16>, pos: nat, st: Contents, su: Contents)
    requires pos <= |ws| && pos <= |vs|
    requires ws[pos..] == vs[pos..]
    ensures Walk(ws, pos, st).status == Walk(vs, pos, su).status
    decreases |ws| - pos, 0
  {
    assert |ws| == |vs|;
    if pos < |ws| && |ws| - pos >= EventHeaderSize {
      assert ws[pos..pos + EventHeaderSize] == vs[pos..pos + EventHeaderSize] by {
        assert ws[pos..pos + EventHeaderSize] == ws[pos..][..EventHeaderSize];
        assert vs[pos..pos + EventHeaderSize] == vs[pos..][..EventHeaderSize];
      }
      var h: EventHeader := ws[pos..pos + EventHeaderSize];
      WalkChannelsSuffix(ws, vs, pos + EventHeaderSize, Popcount(ActiveChannels(h)), st.(header := h), su.(header := h));
    }
  }

  lemma {:induction false} WalkChannelsSuffix(ws: seq<Word16>, vs: seq<Word16>, pos: nat, n: nat, st: Contents, su: Contents)
    requires pos <= |ws| && pos <= |vs|
    requires ws[pos..] == vs[pos..]
    ensures WalkChannels(ws, pos, n, st).status == WalkChannels(vs, pos, n, su).status
    decreases |ws| - pos, n + 1
  {
    assert |ws| == |vs|;
    if n == 0 {
      if pos < |ws| {
        assert ws[pos] == ws[pos..][0] == vs[pos..][0] == vs[pos];
        if TrailerValid([ws[pos]]) {
          assert ws[pos + 1..] == ws[pos..][1..];
          assert vs[pos + 1..] == vs[pos..][1..];
          WalkSuffix(ws, vs, pos + 1, st.(trailer := [ws[pos]]), su.(trailer := [vs[pos]]));
        }
      }
    } else if |ws| - pos >= ChannelStreamSize {
      var next := pos + ChannelStreamSize;
      assert ws[next..] == ws[pos..][ChannelStreamSize..];
      assert vs[next..] == vs[pos..][ChannelStreamSize..];
      WalkChannelsSuffix(ws, vs, next, n - 1,
        st.(streams := st.streams + [StreamAt(ws, pos)]), su.(streams := su.streams + [StreamAt(vs, pos)]));
    }
  }

  /** The channel streams of a walk that converts: n of them, read back to
      back from pos. */
  lemma {:induction false} ConvertedStreams(ws: seq<Word16>, pos: nat, n: nat, st: Contents) returns (cs: seq<ChannelStream>)
    requires pos <= |ws|
    requires WalkChannels(ws, pos, n, st).status == Converted
    ensures |cs| == n && pos + |StreamsWords(cs)| <= |ws|
    ensures ws[pos..pos + |StreamsWords(cs)|] == StreamsWords(cs)
    decreases n
  {
    if n == 0 {
      cs := [];
    } else {
      assert |ws| - pos >= ChannelStreamSize;
      var next := pos + ChannelStreamSize;
      var c := StreamAt(ws, pos);
      StreamAtWords(ws, pos);
      WalkChannelsAtStream(ws, pos, n, st);
      var rest := ConvertedStreams(ws, next, n - 1, st.(streams := st.streams + [c]));
      cs := [c] + rest;
      var rw := StreamsWords(rest);
      assert cs[1..] == rest;
      assert StreamsWords(cs) == ChannelStreamWords(c) + rw;
      var end := next + |rw|;
      assert ws[pos..end] == ws[pos..next] + ws[next..end];
    }
  }

  /** The first fragment of a walk that converts. */
  lemma FirstFragment(ws: seq<Word16>, pos: nat, st: Contents) returns (f: Fragment)
    requires pos < |ws|
    requires Walk(ws, pos, st).status == Converted
    ensures WellFormed(f) && TrailerValid(f.trailer)
    ensures pos + |FragmentWords(f)| <= |ws|
    ensures ws[pos..pos + |FragmentWords(f)|] == FragmentWords(f)
  {
    assert |ws| - pos >= EventHeaderSize;
    var body := pos + EventHeaderSize;
    var h: EventHeader := ws[pos..body];
    var n := Popcount(ActiveChannels(h));
    var st1 := st.(header := h);
    WalkAtHeader(ws, pos, st);
    var cs := ConvertedStreams(ws, body, n, st1);
    var sw := StreamsWords(cs);
    var tail := body + |sw|;
    WalkStreams(ws, body, cs, 0, st1);
    assert tail < |ws|;
    WalkChannelsAtTrailer(ws, tail, st1.(streams := st.streams + cs));
    f := Fragment(h, cs, [ws[tail]]);
    FragmentAt(ws, pos, f);
  }

  /** Header, streams and trailer found back to back at pos make up the
      fragment's words. */
  lemma FragmentAt(ws: seq<Word16>, pos: nat, f: Fragment)
    requires pos + EventHeaderSize + |StreamsWords(f.streams)| < |ws|
    requires ws[pos..pos + EventHeaderSize] == f.header
    requires ws[pos + EventHeaderSize..pos + EventHeaderSize + |StreamsWords(f.streams)|] == StreamsWords(f.streams)
    requires f.trailer == [ws[pos + EventHeaderSize + |StreamsWords(f.streams)|]]
    ensures pos + |FragmentWords(f)| <= |ws|
    ensures ws[pos..pos + |FragmentWords(f)|] == FragmentWords(f)
  {
    var body := pos + EventHeaderSize;
    var tail := body + |StreamsWords(f.streams)|;
    assert ws[pos..tail + 1] == ws[pos..body] + ws[body..tail] + ws[tail..tail + 1];
  }

  /** A walk that converts has read whole fragments, each well formed and
      closed by a valid trailer, up to the end of the words. */
  lemma {:induction false} ConvertedFragments(ws: seq<Word16>, pos: nat, st: Contents) returns (fs: seq<Fragment>)
    requires pos <= |ws|
    requires Walk(ws, pos, st).status == Converted
    ensures AllWellFormed(fs)
    ensures ws[pos..] == FragmentsWords(fs)
    ensures Walk(ws, pos, st) == Walked(AbsorbAll(st, fs), Converted)
    decreases |ws| - pos
  {
    if pos == |ws| {
      fs := [];
    } else {
      var f := FirstFragment(ws, pos, st);
      var next := pos + |FragmentWords(f)|;
      WalkFragment(ws, pos, f, st);
      var more := ConvertedFragments(ws, next, Absorb(st, f));
      fs := [f] + more;
      FragmentsCons(st, f, more);
      SuffixSplit(ws, pos, next);
    }
  }

  /** Facts about one fragment put in front of others. */
  lemma FragmentsCons(st: Contents, f: Fragment, more: seq<Fragment>)
    requires WellFormed(f) && TrailerValid(f.trailer) && AllWellFormed(more)
    ensures AllWellFormed([f] + more)
    ensures FragmentsWords([f] + more) == FragmentWords(f) + FragmentsWords(more)
    ensures AbsorbAll(st, [f] + more) == AbsorbAll(Absorb(st, f), more)
  {
    var fs := [f] + more;
    assert fs[1..] == more;
  }

  lemma SuffixSplit(s: seq<Word16>, a: nat, b: nat)
    requires a <= b <= |s|
    ensures s[a..] == s[a..b] + s[b..]
  {
  }

  /** A block converts exactly when its words are whole fragments, each well
      formed and closed by a valid trailer; otherwise some fragment runs past
      the end or carries a wrong trailer. */
  lemma ConvertedIffFragments(block8: seq<Byte>, st: Contents)
    ensures Walk(Words16(block8), 0, st).status == Converted
        <==> exists fs :: AllWellFormed(fs) && Words16(block8) == FragmentsWords(fs)
  {
    var ws := Words16(block8);
    if Walk(ws, 0, st).status == Converted {
      var fs := ConvertedFragments(ws, 0, st);
      assert ws[0..] == ws;
      assert AllWellFormed(fs) && ws == FragmentsWords(fs);
    }
    if exists fs :: AllWellFormed(fs) && ws == FragmentsWords(fs) {
      var fs :| AllWellFormed(fs) && ws == FragmentsWords(fs);
      FragmentsConvert(ws, fs, st);
    }
  }

  /** Words made of whole valid fragments convert. */
  lemma FragmentsConvert(ws: seq<Word16>, fs: seq<Fragment>, st: Contents)
    requires AllWellFormed(fs) && ws == FragmentsWords(fs)
    ensures Walk(ws, 0, st) == Walked(AbsorbAll(st, fs), Converted)
  {
    assert ws[0..|ws|] == ws;
    WalkFragments(ws, 0, fs, st);
  }

  // ---------------------------------------------------------------------
  // Several blocks
  // ---------------------------------------------------------------------

  /** The byte blocks of an event, block i encoding the fragments fss[i]. */
  function EncodeBlocks(fss: seq<seq<Fragment>>): (blocks: seq<seq<Byte>>)
    ensures |blocks| == |fss|
  {
    if fss == [] then [] else [Bytes16(FragmentsWords(fss[0]))] + EncodeBlocks(fss[1..])
  }

  function Flatten(fss: seq<seq<Fragment>>): seq<Fragment>
  {
    if fss == [] then [] else fss[0] + Flatten(fss[1..])
  }

  lemma {:induction false} AbsorbAllAppend(st: Contents, a: seq<Fragment>, b: seq<Fragment>)
    ensures AbsorbAll(st, a + b) == AbsorbAll(AbsorbAll(st, a), b)
    decreases a
  {
    if a != [] {
      assert (a + b)[0] == a[0];
      assert (a + b)[1..] == a[1..] + b;
      AbsorbAllAppend(Absorb(st, a[0]), a[1..], b);
    } else {
      assert a + b == b;
    }
  }

  /** Blocks of whole valid fragments convert one after the other: the
      event ends up with every channel stream of every block in block-list
      order, and with the last fragment's header and trailer. */
  lemma {:induction false} EncodedBlocksConvert(fss: seq<seq<Fragment>>, st: Contents)
    requires forall i :: 0 <= i < |fss| ==> AllWellFormed(fss[i])
    ensures WalkBlocks(EncodeBlocks(fss), st) == Walked(AbsorbAll(st, Flatten(fss)), Converted)
    ensures WalkBlocks(EncodeBlocks(fss), st).contents.streams == st.streams + AllStreams(Flatten(fss))
    decreases fss
  {
    if fss != [] {
      var blocks := EncodeBlocks(fss);
      assert blocks[0] == Bytes16(FragmentsWords(fss[0]));
      assert blocks[1..] == EncodeBlocks(fss[1..]);
      EncodedFragmentsConvert(fss[0], st);
      EncodedBlocksConvert(fss[1..], AbsorbAll(st, fss[0]));
      AbsorbAllAppend(st, fss[0], Flatten(fss[1..]));
    }
    AbsorbAllContents(st, Flatten(fss));
  }
}
