/** Joining and splitting binary packages: `qtbz2.c`. */
module Tbz2 {
  import opened CStrings
  import opened Bytes
  import opened Xpak
  import opened XpakRead

  /** The size of the copy buffer. */
  const COPY_BUFFER: nat := BUFSIZE * 32

  /** What splitting gives: the tarball and the xpak. */
  function Split(f: Data): Option<(Data, Data)> {
    if |f| < FOOTER_LEN || f[|f| - 4..] != TailMark() then None
    else
      var xpakSize := ReadBe(f[|f| - 8..|f| - 4]);
      var tarSize := |f| - xpakSize - FOOTER_LEN;
      if xpakSize <= 0 || xpakSize >= |f| || tarSize <= 0 then None
      else Some((f[..tarSize], f[tarSize..tarSize + xpakSize]))
  }

  /** tbz2_compose; an xpak without its mark only draws a warning. */
  method Compose(tar: Data, xpak: Data) returns (out: Data, warned: bool)
    ensures out == Package(tar, xpak)
    ensures warned <==> !(StartMark() <= xpak)
  {
    hide WriteBe;
    var x := new Stream(xpak);
    var buf := x.Read(8);
    warned := |buf| != 8 || buf != StartMark();
    out := tar;
    out := out + xpak;
    out := out + WriteBe(|xpak|);
    out := out + TailMark();
  }

  /** _tbz2_write_file: copies `len` bytes buffer by buffer, or skips them when there is no destination. */
  method WriteFile(src: Stream, wanted: bool, len: nat) returns (out: Data)
    requires src.pos + len <= |src.bytes|
    modifies src
    ensures src.pos == old(src.pos) + len
    ensures out == if wanted then src.bytes[old(src.pos)..old(src.pos) + len] else []
  {
    out := [];
    if !wanted {
      src.pos := src.pos + len;
      return;
    }
    ghost var start := src.pos;
    var left := len;
    while true
      invariant 0 <= left <= len && src.pos == start + (len - left)
      invariant out == src.bytes[start..src.pos]
      decreases left
    {
      var part := src.Read(if left < COPY_BUFFER then left else COPY_BUFFER);
      out := out + part;
      left := left - |part|;
      if left == 0 || |part| == 0 {
        break;
      }
    }
  }

  /** tbz2_decompose: false and nothing written, or both wanted parts. */
  method Decompose(f: Data, wantTar: bool, wantXpak: bool) returns (ok: bool, tar: Data, xpak: Data)
    ensures ok <==> Split(f).Some?
    ensures ok ==> tar == (if wantTar then Split(f).value.0 else []) && xpak == (if wantXpak then Split(f).value.1 else [])
  {
    hide ReadBe;
    ok, tar, xpak := false, [], [];
    var x := new Stream(f);
    var found := x.SeekEnd(FOOTER_LEN);
    if !found {
      return;
    }
    var tail := x.Read(FOOTER_LEN);
    assert tail == f[|f| - 8..|f|] && tail[..4] == f[|f| - 8..|f| - 4] && tail[4..] == f[|f| - 4..];
    if |tail| != FOOTER_LEN || tail[4..] != TailMark() {
      return;
    }
    var xpakSize := ReadBe(tail[..4]);
    var tarSize := |f| - xpakSize - FOOTER_LEN;
    if xpakSize <= 0 || xpakSize >= |f| || tarSize <= 0 {
      return;
    }
    x.pos := 0;
    tar := WriteFile(x, wantTar, tarSize);
    xpak := WriteFile(x, wantXpak, xpakSize);
    ok := true;
  }

  /** Splitting undoes joining exactly when neither part is empty and the xpak's size fits the trailer. */
  lemma SplitOfPackage(tar: Data, xpak: Data)
    ensures Split(Package(tar, xpak)) == Some((tar, xpak)) <==> tar != [] && 0 < |xpak| < WORD
  {
    hide WriteBe, ReadBe;
    var f := Package(tar, xpak);
    assert f[|f| - 8..|f| - 4] == WriteBe(|xpak|) && f[|f| - 4..] == TailMark();
    ReadOfWrite(|xpak|);
    if |xpak| < WORD {
      assert f[..|tar|] == tar && f[|tar|..|tar| + |xpak|] == xpak;
    }
  }

  /** Joining undoes splitting, for every file that splits. */
  lemma PackageOfSplit(f: Data)
    requires Split(f).Some?
    ensures Package(Split(f).value.0, Split(f).value.1) == f
  {
    hide WriteBe, ReadBe;
    WriteOfRead(f[|f| - 8..|f| - 4]);
  }
}
