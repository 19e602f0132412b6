/** Reading an xpak back: the header search, the index walk, and the round trip. */
module XpakRead {
  import opened CStrings
  import opened Bytes
  import opened Xpak

  // ----- what the reader computes -----

  datatype Error = NameTooLong | NameWithPath | OutOfBounds | IndexTooLong | ShortRead

  /** One call of the callback. */
  datatype Report = Report(name: Data, offset: nat, len: nat)

  /** The result of xpak_process_fd; `Failed` ends the program after the given callbacks. */
  datatype Outcome =
    | NotXpak
    | Failed(before: seq<Report>, error: Error)
    | Done(start: nat, reports: seq<Report>, data: Option<Data>)

  datatype Header = Header(start: nat, indexLen: nat, dataLen: nat)

  /** What memory holds at and after the end of the index. */
  type Junk = nat -> Byte

  function Fetch(index: Data, junk: Junk, p: nat, n: nat): (r: Data)
    ensures |r| == n
    ensures p + n <= |index| ==> r == index[p..p + n]
  {
    seq(n, i requires 0 <= i => if p + i < |index| then index[p + i] else junk(p + i))
  }

  function UpToNul(name: Data): Data {
    if name == [] || name[0] == 0 then [] else [name[0]] + UpToNul(name[1..])
  }

  predicate HasPath(name: Data) {
    SLASH in UpToNul(name) || BACKSLASH in UpToNul(name)
  }

  predicate Outside(dataLen: Option<nat>, offset: nat, len: nat) {
    dataLen.Some? && (offset > dataLen.value || len > dataLen.value || (offset + len) % WORD > dataLen.value)
  }

  /** _xpak_walk_index from position `p`: the callbacks, and the error that ends the walk if one does. */
  function Walk(index: Data, junk: Junk, dataLen: Option<nat>, p: nat): (seq<Report>, Option<Error>)
    decreases |index| - p
  {
    if p >= |index| then ([], None)
    else
      var n := ReadBe(Fetch(index, junk, p, 4));
      if n >= NAME_LIMIT then ([], Some(NameTooLong))
      else
        var name := Fetch(index, junk, p + 4, n);
        if HasPath(name) then ([], Some(NameWithPath))
        else
          var offset := ReadBe(Fetch(index, junk, p + 4 + n, 4));
          var len := ReadBe(Fetch(index, junk, p + 8 + n, 4));
          if Outside(dataLen, offset, len) then ([], Some(OutOfBounds))
          else
            var (rs, e) := Walk(index, junk, dataLen, p + 12 + n);
            ([Report(name, offset, len)] + rs, e)
  }

  lemma {:induction false} PathIff(name: Data, c: Byte)
    requires c != 0
    ensures c in UpToNul(name) <==> exists i :: 0 <= i < |name| && name[i] == c && forall j :: 0 <= j < i ==> name[j] != 0
  {
    if name != [] && name[0] != 0 {
      var t := name[1..];
      PathIff(t, c);
      assert forall i :: 0 < i < |name| ==> name[i] == t[i - 1];
      if c in UpToNul(t) {
        var i :| 0 <= i < |t| && t[i] == c && forall j :: 0 <= j < i ==> t[j] != 0;
        assert name[i + 1] == c && forall j :: 0 <= j < i + 1 ==> name[j] != 0;
      }
    }
  }

  /** A name is refused for a slash or backslash before its first NUL. */
  lemma HasPathIff(name: Data)
    ensures HasPath(name) <==> exists i :: 0 <= i < |name| && (name[i] == '/' as int || name[i] == '\\' as int)
                                          && forall j :: 0 <= j < i ==> name[j] != 0
  {
    PathIff(name, SLASH);
    PathIff(name, BACKSLASH);
    hide UpToNul;
  }

  /** Whatever the bytes, a callback is made only for a short name without a path, and, when the data is read,
      for a part of it: for data below two gigabytes, where the sum of offset and length does not wrap. */
  lemma {:induction false} WalkSafe(index: Data, junk: Junk, dataLen: Option<nat>, p: nat)
    ensures forall r :: r in Walk(index, junk, dataLen, p).0 ==>
      && |r.name| < NAME_LIMIT && !HasPath(r.name)
      && (dataLen.Some? && dataLen.value < WORD / 2 ==> r.offset + r.len <= dataLen.value)
    decreases |index| - p
  {
    hide HasPath, ReadBe, Fetch;
    if p < |index| {
      var n := ReadBe(Fetch(index, junk, p, 4));
      WalkSafe(index, junk, dataLen, p + 12 + n);
      InsideFits(dataLen, ReadBe(Fetch(index, junk, p + 4 + n, 4)), ReadBe(Fetch(index, junk, p + 8 + n, 4)));
    }
  }

  lemma InsideFits(dataLen: Option<nat>, offset: nat, len: nat)
    ensures dataLen.Some? && dataLen.value < WORD / 2 ==> (!Outside(dataLen, offset, len) <==> offset + len <= dataLen.value)
  {
    if dataLen.Some? && dataLen.value < WORD / 2 && offset <= dataLen.value && len <= dataLen.value {
      assert (offset + len) % WORD == offset + len;
    }
  }

  function Lens(f: Data, start: nat): Option<Header>
    requires start + START_LEN <= |f|
  {
    var il, dl := ReadBe(f[start + 8..start + 12]), ReadBe(f[start + 12..start + 16]);
    if il == 0 || dl == 0 then None else Some(Header(start, il, dl))
  }

  predicate MarkAt(f: Data, start: nat) {
    start + START_LEN <= |f| && f[start..start + 8] == StartMark()
  }

  /** Where the trailer says the xpak starts; negative when that is before the file. */
  function TrailerStart(f: Data): int
    requires |f| >= FOOTER_LEN
  {
    |f| - (Signed(ReadBe(f[|f| - 8..|f| - 4])) + FOOTER_LEN)
  }

  /** _xpak_open. */
  function Open(f: Data): Option<Header> {
    if |f| < START_LEN then None
    else if MarkAt(f, 0) then Lens(f, 0)
    else if f[|f| - 4..] == TailMark() && TrailerStart(f) >= 0 && MarkAt(f, TrailerStart(f)) then Lens(f, TrailerStart(f))
    else None
  }

  /** A file that ends before its index, or its data where that is read, is short, and nothing is called back. */
  lemma TruncatedFails(f: Data, getData: bool, junk: Junk)
    requires |f| >= START_LEN && f[..8] == StartMark()
    ensures var il, dl := ReadBe(f[8..12]), ReadBe(f[12..16]);
      && (il == 0 || dl == 0 ==> Process(f, getData, junk) == NotXpak)
      && (il > 0 && dl > 0 && il >= BUFSIZE ==> Process(f, getData, junk) == Failed([], IndexTooLong))
      && (il > 0 && dl > 0 && il < BUFSIZE && |f| < START_LEN + il ==> Process(f, getData, junk) == Failed([], ShortRead))
      && (il > 0 && dl > 0 && il < BUFSIZE && |f| < START_LEN + il + dl && getData ==>
            Process(f, getData, junk) == Failed([], ShortRead))
  {
    hide ReadBe, Walk, StartMark;
    assert f[0..8] == f[..8];
  }

  /** A file without either mark is no xpak. */
  lemma NoMarkNoXpak(f: Data, getData: bool, junk: Junk)
    requires |f| < START_LEN || (f[..8] != StartMark() && f[|f| - 4..] != TailMark())
    ensures Process(f, getData, junk) == NotXpak
  {
    hide ReadBe, Walk, StartMark, TailMark;
    assert |f| >= START_LEN ==> f[0..8] == f[..8];
  }

  function Finished(start: nat, data: Option<Data>, w: (seq<Report>, Option<Error>)): Outcome {
    if w.1.Some? then Failed(w.0, w.1.value) else Done(start, w.0, data)
  }

  /** xpak_process_fd. */
  function Process(f: Data, getData: bool, junk: Junk): Outcome {
    var o := Open(f);
    if o.None? then NotXpak
    else
      var h := o.value;
      if h.indexLen >= BUFSIZE then Failed([], IndexTooLong)
      else
        var index := ReadAt(f, h.start + START_LEN, h.indexLen);
        if |index| != h.indexLen then Failed([], ShortRead)
        else if getData then
          var data := ReadAt(f, h.start + START_LEN + h.indexLen, h.dataLen);
          if |data| != h.dataLen then Failed([], ShortRead)
          else Finished(h.start, Some(data), Walk(index, junk, Some(h.dataLen), 0))
        else Finished(h.start, None, Walk(index, junk, None, 0))
  }

  // ----- the reader as the program runs it -----

  method WalkIndex(index: Data, junk: Junk, dataLen: Option<nat>) returns (reports: seq<Report>, error: Option<Error>)
    ensures (reports, error) == Walk(index, junk, dataLen, 0)
  {
    hide HasPath, ReadBe;
    reports, error := [], None;
    var p := 0;
    assert [] + Walk(index, junk, dataLen, 0).0 == Walk(index, junk, dataLen, 0).0;
    while p < |index|
      invariant error.None?
      invariant Walk(index, junk, dataLen, 0).0 == reports + Walk(index, junk, dataLen, p).0
      invariant Walk(index, junk, dataLen, 0).1 == Walk(index, junk, dataLen, p).1
      decreases |index| - p
    {
      assert reports + [] == reports;
      var n := ReadBe(Fetch(index, junk, p, 4));
      if n >= NAME_LIMIT {
        return reports, Some(NameTooLong);
      }
      p := p + 4;
      var name := Fetch(index, junk, p, n);
      if HasPath(name) {
        return reports, Some(NameWithPath);
      }
      p := p + n;
      var offset := ReadBe(Fetch(index, junk, p, 4));
      p := p + 4;
      var len := ReadBe(Fetch(index, junk, p, 4));
      p := p + 4;
      if Outside(dataLen, offset, len) {
        return reports, Some(OutOfBounds);
      }
      Assoc(reports, [Report(name, offset, len)], Walk(index, junk, dataLen, p).0);
      reports := reports + [Report(name, offset, len)];
    }
    assert reports + [] == reports;
  }

  lemma Slice(f: Data, a: nat, b: nat, i: nat, j: nat)
    requires a <= b <= |f| && i <= j <= b - a
    ensures f[a..b][i..j] == f[a + i..a + j]
  {
    forall k | 0 <= k < j - i ensures f[a..b][i..j][k] == f[a + i..a + j][k] {
      assert f[a..b][i + k] == f[a + i + k];
    }
  }

  /** The stream is at `start`; reads the mark and the two sizes. */
  method ReadHeader(x: Stream) returns (mark: bool, short: bool, r: Option<Header>)
    modifies x
    ensures short <==> old(x.pos) + START_LEN > |x.bytes|
    ensures mark <==> MarkAt(x.bytes, old(x.pos))
    ensures mark ==> r == Lens(x.bytes, old(x.pos)) && x.pos == old(x.pos) + START_LEN
  {
    hide ReadBe;
    var start := x.pos;
    var buf := x.Read(START_LEN);
    short := |buf| != START_LEN;
    if short {
      return false, true, None;
    }
    Slice(x.bytes, start, start + START_LEN, 0, 8);
    Slice(x.bytes, start, start + START_LEN, 8, 12);
    Slice(x.bytes, start, start + START_LEN, 12, 16);
    mark := buf[..8] == StartMark();
    var il, dl := ReadBe(buf[8..12]), ReadBe(buf[12..16]);
    r := if il == 0 || dl == 0 then None else Some(Header(start, il, dl));
  }

  /** The stream goes to where a trailer says that an xpak starts. */
  method SeekTrailer(x: Stream) returns (ok: bool)
    requires |x.bytes| >= START_LEN
    modifies x
    ensures ok <==> x.bytes[|x.bytes| - 4..] == TailMark() && TrailerStart(x.bytes) >= 0
    ensures ok ==> x.pos == TrailerStart(x.bytes)
  {
    hide ReadBe, Signed;
    ghost var n := |x.bytes|;
    ok := x.SeekEnd(FOOTER_LEN);
    var buf := x.Read(FOOTER_LEN);
    Slice(x.bytes, n - 8, n, 0, 4);
    Slice(x.bytes, n - 8, n, 4, 8);
    if buf[4..] != TailMark() {
      return false;
    }
    ok := x.SeekEnd(Signed(ReadBe(buf[..4])) + FOOTER_LEN);
  }

  method OpenStream(x: Stream) returns (r: Option<Header>)
    requires x.pos == 0
    modifies x
    ensures r == Open(x.bytes)
    ensures r.Some? ==> x.pos == r.value.start + START_LEN
  {
    hide MarkAt, TrailerStart;
    var mark, short;
    mark, short, r := ReadHeader(x);
    if short {
      return None;
    }
    if !mark {
      var ok := SeekTrailer(x);
      if !ok {
        return None;
      }
      mark, short, r := ReadHeader(x);
      if !mark {
        return None;
      }
    }
  }

  method ProcessFd(f: Data, getData: bool, junk: Junk) returns (r: Outcome)
    ensures r == Process(f, getData, junk)
  {
    hide Walk, Open;
    var x := new Stream(f);
    var o := OpenStream(x);
    if o.None? {
      return NotXpak;
    }
    var h := o.value;
    if h.indexLen >= BUFSIZE {
      return Failed([], IndexTooLong);
    }
    var index := x.Read(h.indexLen);
    if |index| != h.indexLen {
      return Failed([], ShortRead);
    }
    var data := None;
    if getData {
      var d := x.Read(h.dataLen);
      if |d| != h.dataLen {
        return Failed([], ShortRead);
      }
      data := Some(d);
    }
    var reports, error := WalkIndex(index, junk, if getData then Some(h.dataLen) else None);
    r := if error.Some? then Failed(reports, error.value) else Done(h.start, reports, data);
  }

  // ----- the round trip -----

  /** The callbacks for the members, the first one's data at `offset`. */
  function Reports(ms: seq<Member>, offset: nat): seq<Report> {
    if ms == [] then []
    else [Report(ms[0].name, offset, |ms[0].content|)] + Reports(ms[1..], offset + |ms[0].content|)
  }

  function NameError(m: Member): Option<Error> {
    if |m.name| >= NAME_LIMIT then Some(NameTooLong) else if HasPath(m.name) then Some(NameWithPath) else None
  }

  /** The members before the first one with a name the reader refuses, and that refusal. */
  function Accepted(ms: seq<Member>): (seq<Member>, Option<Error>) {
    if ms == [] then ([], None)
    else
      var e := NameError(ms[0]);
      if e.Some? then ([], e)
      else
        var (rest, e') := Accepted(ms[1..]);
        ([ms[0]] + rest, e')
  }

  /** The four fields of an entry are found where the walk looks for them. */
  lemma EntryRead(index: Data, junk: Junk, p: nat, m: Member, offset: nat)
    requires p + |EntryOf(m, offset)| <= |index| && index[p..p + |EntryOf(m, offset)|] == EntryOf(m, offset)
    requires |m.name| < WORD && offset < WORD && |m.content| < WORD
    ensures |EntryOf(m, offset)| == 12 + |m.name|
    ensures ReadBe(Fetch(index, junk, p, 4)) == |m.name|
    ensures Fetch(index, junk, p + 4, |m.name|) == m.name
    ensures ReadBe(Fetch(index, junk, p + 4 + |m.name|, 4)) == offset
    ensures ReadBe(Fetch(index, junk, p + 8 + |m.name|, 4)) == |m.content|
  {
    hide ReadBe, WriteBe;
    var n := |m.name|;
    var e := EntryOf(m, offset);
    var a, b, c := WriteBe(n), WriteBe(offset), WriteBe(|m.content|);
    assert e == a + m.name + b + c;
    assert index[p..p + 4] == e[..4] == a;
    assert index[p + 4..p + 4 + n] == e[4..4 + n] == m.name;
    assert index[p + 4 + n..p + 8 + n] == e[4 + n..8 + n] == b;
    assert index[p + 8 + n..p + 12 + n] == e[8 + n..12 + n] == c;
    ReadOfWrite(n);
    ReadOfWrite(offset);
    ReadOfWrite(|m.content|);
  }

  /** Walking a written index calls back for the members in order, up to the first refused name. */
  lemma {:induction false} WalkOfIndex(index: Data, junk: Junk, dataLen: Option<nat>, p: nat, ms: seq<Member>, offset: nat)
    requires p + |IndexOf(ms, offset)| == |index| && index[p..] == IndexOf(ms, offset)
    requires |index| <= INT_MAX && offset + |DataOf(ms)| <= INT_MAX
    requires dataLen.Some? ==> offset + |DataOf(ms)| <= dataLen.value
    ensures Walk(index, junk, dataLen, p) == (Reports(Accepted(ms).0, offset), Accepted(ms).1)
    decreases |ms|
  {
    hide Walk, Fetch, ReadBe, HasPath, EntryOf, IndexOf, Accepted, Reports;
    WalkEnds(index, junk, dataLen, p, ms, offset);
    if ms != [] {
      var m := ms[0];
      IndexStep(index, p, ms, offset);
      DataStep(ms);
      EntryRead(index, junk, p, m, offset);
      WalkStep(index, junk, dataLen, p, m, offset);
      AcceptedStep(ms, offset);
      if NameError(m).None? {
        WalkOfIndex(index, junk, dataLen, p + 12 + |m.name|, ms[1..], offset + |m.content|);
      }
    }
  }

  lemma WalkEnds(index: Data, junk: Junk, dataLen: Option<nat>, p: nat, ms: seq<Member>, offset: nat)
    requires p + |IndexOf(ms, offset)| == |index|
    ensures ms == [] ==> Walk(index, junk, dataLen, p) == ([], None) && Accepted(ms) == ([], None) && Reports([], offset) == []
  {
  }

  lemma DataStep(ms: seq<Member>)
    requires ms != []
    ensures |DataOf(ms)| == |ms[0].content| + |DataOf(ms[1..])|
  {
  }

  /** One round of the walk over an entry that has been read. */
  lemma WalkStep(index: Data, junk: Junk, dataLen: Option<nat>, p: nat, m: Member, offset: nat)
    requires p < |index|
    requires ReadBe(Fetch(index, junk, p, 4)) == |m.name|
    requires Fetch(index, junk, p + 4, |m.name|) == m.name
    requires ReadBe(Fetch(index, junk, p + 4 + |m.name|, 4)) == offset
    requires ReadBe(Fetch(index, junk, p + 8 + |m.name|, 4)) == |m.content|
    requires offset + |m.content| < WORD && (dataLen.Some? ==> offset + |m.content| <= dataLen.value)
    ensures NameError(m).Some? ==> Walk(index, junk, dataLen, p) == ([], NameError(m))
    ensures NameError(m).None? ==>
      var w := Walk(index, junk, dataLen, p + 12 + |m.name|);
      Walk(index, junk, dataLen, p) == ([Report(m.name, offset, |m.content|)] + w.0, w.1)
  {
    hide ReadBe, HasPath, Fetch;
    assert (offset + |m.content|) % WORD == offset + |m.content|;
  }

  lemma IndexStep(index: Data, p: nat, ms: seq<Member>, offset: nat)
    requires ms != [] && p + |IndexOf(ms, offset)| == |index| && index[p..] == IndexOf(ms, offset)
    ensures p + |EntryOf(ms[0], offset)| <= |index| && 12 + |ms[0].name| <= |index|
    ensures index[p..p + |EntryOf(ms[0], offset)|] == EntryOf(ms[0], offset)
    ensures index[p + 12 + |ms[0].name|..] == IndexOf(ms[1..], offset + |ms[0].content|)
  {
    hide WriteBe;
    var e, r := EntryOf(ms[0], offset), IndexOf(ms[1..], offset + |ms[0].content|);
    assert IndexOf(ms, offset) == e + r;
    assert |e| == 12 + |ms[0].name|;
    assert index[p..][..|e|] == (e + r)[..|e|] == e;
    assert index[p..][|e|..] == (e + r)[|e|..] == r;
  }

  lemma AcceptedStep(ms: seq<Member>, offset: nat)
    requires ms != []
    ensures NameError(ms[0]).Some? ==> Reports(Accepted(ms).0, offset) == [] && Accepted(ms).1 == NameError(ms[0])
    ensures NameError(ms[0]).None? ==>
      && Accepted(ms).1 == Accepted(ms[1..]).1
      && Reports(Accepted(ms).0, offset)
      == [Report(ms[0].name, offset, |ms[0].content|)] + Reports(Accepted(ms[1..]).0, offset + |ms[0].content|)
  {
    hide NameError;
    var rest := Accepted(ms[1..]).0;
    assert ([ms[0]] + rest)[1..] == rest;
  }

  // ----- the archive, alone or inside a binary package -----

  /** A binary package: tarball, xpak, and the trailer with the xpak's size. */
  function Package(tar: Data, xpak: Data): Data {
    tar + xpak + WriteBe(|xpak|) + TailMark()
  }

  /** Archives the reader's integers can describe. */
  predicate Describable(ms: seq<Member>) {
    |Archive(ms)| <= INT_MAX
  }

  lemma ArchiveLayout(ms: seq<Member>)
    ensures var i, d, a := IndexOf(ms, 0), DataOf(ms), Archive(ms);
      && |a| == 24 + |i| + |d|
      && a[..8] == StartMark() && a[8..12] == WriteBe(|i|) && a[12..16] == WriteBe(|d|)
      && a[16..16 + |i|] == i && a[16 + |i|..16 + |i| + |d|] == d
  {
    hide IndexOf, DataOf, WriteBe;
  }

  lemma At(f: Data, pre: Data, a: Data, post: Data, i: nat, j: nat)
    requires f == pre + a + post && i <= j <= |a|
    ensures |pre| + j <= |f| && f[|pre| + i..|pre| + j] == a[i..j]
  {
  }

  /** The header is read from wherever the archive stands. */
  lemma HeaderRead(f: Data, pre: Data, ms: seq<Member>, post: Data)
    requires f == pre + Archive(ms) + post && Describable(ms)
    ensures MarkAt(f, |pre|)
    ensures Lens(f, |pre|) == if IndexOf(ms, 0) == [] || DataOf(ms) == [] then None
                              else Some(Header(|pre|, |IndexOf(ms, 0)|, |DataOf(ms)|))
    ensures var i, d := IndexOf(ms, 0), DataOf(ms); var at := |pre| + START_LEN;
      ReadAt(f, at, |i|) == i && ReadAt(f, at + |i|, |d|) == d
  {
    hide IndexOf, DataOf, WriteBe, ReadBe, Archive;
    ArchiveLayout(ms);
    var i, d := IndexOf(ms, 0), DataOf(ms);
    At(f, pre, Archive(ms), post, 0, 8);
    At(f, pre, Archive(ms), post, 8, 12);
    At(f, pre, Archive(ms), post, 12, 16);
    At(f, pre, Archive(ms), post, 16, 16 + |i|);
    At(f, pre, Archive(ms), post, 16 + |i|, 16 + |i| + |d|);
    ReadOfWrite(|i|);
    ReadOfWrite(|d|);
  }

  /** What reading back an archive gives: every limit of the reader, and nothing else, can stop it. */
  function ReadBack(ms: seq<Member>, start: nat, getData: bool): Outcome {
    if IndexOf(ms, 0) == [] || DataOf(ms) == [] then NotXpak
    else if |IndexOf(ms, 0)| >= BUFSIZE then Failed([], IndexTooLong)
    else
      Finished(start, if getData then Some(DataOf(ms)) else None, (Reports(Accepted(ms).0, 0), Accepted(ms).1))
  }

  lemma ProcessAt(f: Data, pre: Data, ms: seq<Member>, post: Data, getData: bool, junk: Junk)
    requires f == pre + Archive(ms) + post && Describable(ms)
    requires Open(f) == Lens(f, |pre|)
    ensures Process(f, getData, junk) == ReadBack(ms, |pre|, getData)
  {
    hide Open, Lens, IndexOf, DataOf, Walk, Reports, Accepted, Archive, ReadAt, Finished;
    HeaderRead(f, pre, ms, post);
    IndexWalked(ms, getData, junk);
  }

  lemma IndexWalked(ms: seq<Member>, getData: bool, junk: Junk)
    requires Describable(ms)
    ensures Walk(IndexOf(ms, 0), junk, if getData then Some(|DataOf(ms)|) else None, 0)
         == (Reports(Accepted(ms).0, 0), Accepted(ms).1)
  {
    hide IndexOf, DataOf, Walk, Reports, Accepted, Archive;
    ArchiveLayout(ms);
    assert IndexOf(ms, 0)[0..] == IndexOf(ms, 0);
    WalkOfIndex(IndexOf(ms, 0), junk, if getData then Some(|DataOf(ms)|) else None, 0, ms, 0);
  }

  /** A plain xpak file reads back. */
  lemma RoundTrip(ms: seq<Member>, getData: bool, junk: Junk)
    requires Describable(ms)
    ensures Process(Archive(ms), getData, junk) == ReadBack(ms, 0, getData)
  {
    hide Process, Archive, ReadBack, Lens, StartMark;
    var f := Archive(ms);
    assert f == [] + f + [];
    HeaderRead(f, [], ms, []);
    ProcessAt(f, [], ms, [], getData, junk);
  }

  /** An xpak behind any tarball that is not itself an xpak reads back, and starts where the tarball ends. */
  lemma EmbeddedRoundTrip(tar: Data, ms: seq<Member>, getData: bool, junk: Junk)
    requires Describable(ms) && !(StartMark() <= tar)
    ensures Process(Package(tar, Archive(ms)), getData, junk) == ReadBack(ms, |tar|, getData)
  {
    var a := Archive(ms);
    var post := WriteBe(|a|) + TailMark();
    var f := Package(tar, a);
    hide Process, Archive, ReadBack, Lens, WriteBe, ReadBe;
    assert f == tar + a + post;
    ArchiveLayout(ms);
    HeaderRead(f, tar, ms, post);
    assert f[|f| - 8..|f| - 4] == WriteBe(|a|) && f[|f| - 4..] == TailMark();
    ReadOfWrite(|a|);
    assert TrailerStart(f) == |tar|;
    NoMarkBefore(tar, a, post);
    ProcessAt(f, tar, ms, post, getData, junk);
  }

  /** The mark does not overlap itself, so a short tarball cannot make one together with the archive. */
  lemma NoMarkBefore(tar: Data, a: Data, post: Data)
    requires !(StartMark() <= tar) && |a| >= 8 && a[..8] == StartMark()
    ensures tar != [] ==> !MarkAt(tar + a + post, 0)
  {
    var f := tar + a + post;
    if |tar| >= 8 {
      assert tar[..8] == f[0..8];
    } else if tar != [] {
      assert f[0..8][|tar|] == a[..8][0];
    }
  }

  // ----- contents -----

  /** The bytes a consumer copies out for a callback. */
  function Extract(rs: seq<Report>, data: Data): seq<Member>
    requires forall r :: r in rs ==> r.offset + r.len <= |data|
  {
    if rs == [] then [] else [Member(rs[0].name, data[rs[0].offset..rs[0].offset + rs[0].len])] + Extract(rs[1..], data)
  }

  /** Every report stays inside the data, and copying them out gives the members back in order. */
  lemma {:induction false} ExtractReports(ms: seq<Member>, data: Data, offset: nat)
    requires offset + |DataOf(ms)| <= |data| && data[offset..offset + |DataOf(ms)|] == DataOf(ms)
    ensures forall r :: r in Reports(ms, offset) ==> r.offset + r.len <= |data|
    ensures Extract(Reports(ms, offset), data) == ms
  {
    if ms != [] {
      var n := |ms[0].content|;
      DataParts(ms, data, offset);
      hide DataOf;
      ExtractReports(ms[1..], data, offset + n);
      var rs := Reports(ms, offset);
      assert rs[1..] == Reports(ms[1..], offset + n);
      hide Reports;
      assert ms == [ms[0]] + ms[1..];
    }
  }

  lemma DataParts(ms: seq<Member>, data: Data, offset: nat)
    requires ms != [] && offset + |DataOf(ms)| <= |data| && data[offset..offset + |DataOf(ms)|] == DataOf(ms)
    ensures var n, rest := |ms[0].content|, DataOf(ms[1..]);
      && offset + n + |rest| <= |data|
      && data[offset..offset + n] == ms[0].content && data[offset + n..offset + n + |rest|] == rest
  {
    var c, rest := ms[0].content, DataOf(ms[1..]);
    assert DataOf(ms) == c + rest;
    hide DataOf;
    At(data, data[..offset], c + rest, data[offset + |c + rest|..], 0, |c|);
    At(data, data[..offset], c + rest, data[offset + |c + rest|..], |c|, |c + rest|);
  }

  /** The limits the reader puts on names, index and emptiness. */
  predicate WithinLimits(ms: seq<Member>) {
    DataOf(ms) != [] && |IndexOf(ms, 0)| < BUFSIZE && forall m :: m in ms ==> NameError(m).None?
  }

  /** Unpacking a binary package succeeds exactly within the limits, and then gives exactly what was packed. */
  lemma UnpackedIsPacked(tar: Data, ms: seq<Member>, junk: Junk)
    requires Describable(ms) && !(StartMark() <= tar)
    ensures var r := Process(Package(tar, Archive(ms)), true, junk);
      && (r.Done? <==> WithinLimits(ms))
      && (r.Done? ==> r == Done(|tar|, Reports(ms, 0), Some(DataOf(ms))))
    ensures forall r :: r in Reports(ms, 0) ==> r.offset + r.len <= |DataOf(ms)|
    ensures Extract(Reports(ms, 0), DataOf(ms)) == ms
  {
    hide Process, Archive, Reports, NameError, Describable, WriteBe;
    EmbeddedRoundTrip(tar, ms, true, junk);
    AllAccepted(ms);
    assert DataOf(ms)[0..|DataOf(ms)|] == DataOf(ms);
    ExtractReports(ms, DataOf(ms), 0);
  }

  lemma {:induction false} AllAccepted(ms: seq<Member>)
    ensures Accepted(ms).1.None? <==> forall m :: m in ms ==> NameError(m).None?
    ensures Accepted(ms).1.None? ==> Accepted(ms).0 == ms
  {
    hide NameError;
    if ms != [] {
      AllAccepted(ms[1..]);
      assert ms == [ms[0]] + ms[1..];
    }
  }

  // ----- what the packer's names are like -----

  /** Stored names have no slash, so only length and backslashes can be refused. */
  lemma {:induction false} BasenameHasNoSlash(path: Data)
    ensures var n := |path| - |Basename(path)|;
      && 0 <= n && SLASH !in Basename(path) && path[n..] == Basename(path)
      && (n > 0 ==> path[n - 1] == SLASH)
  {
    if SLASH in path && path[|path| - 1] != SLASH {
      BasenameHasNoSlash(path[..|path| - 1]);
    }
  }
}
