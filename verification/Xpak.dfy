/** The xpak container: `libq/xpak.c`. */
module Xpak {
  import opened CStrings
  import opened Bytes

  // ----- layout -----

  function StartMark(): Data { [88, 80, 65, 75, 80, 65, 67, 75] }

  function EndMark(): Data { [88, 80, 65, 75, 83, 84, 79, 80] }

  function TailMark(): Data { [83, 84, 79, 80] }

  const START_LEN: nat := 16
  const FOOTER_LEN: nat := 8
  const NAME_LIMIT: nat := 100
  /** stdio's BUFSIZ, which the index has to fit into. */
  const BUFSIZE: nat := 8192
  const SLASH: Byte := 47
  const BACKSLASH: Byte := 92

  /** What is packed: a name and the bytes stored for it. */
  datatype Member = Member(name: Data, content: Data)

  function EntryOf(m: Member, offset: int): Data {
    WriteBe(|m.name|) + m.name + WriteBe(offset) + WriteBe(|m.content|)
  }

  function IndexOf(ms: seq<Member>, offset: int): Data {
    if ms == [] then [] else EntryOf(ms[0], offset) + IndexOf(ms[1..], offset + |ms[0].content|)
  }

  function DataOf(ms: seq<Member>): Data {
    if ms == [] then [] else ms[0].content + DataOf(ms[1..])
  }

  function Archive(ms: seq<Member>): Data {
    StartMark() + WriteBe(|IndexOf(ms, 0)|) + WriteBe(|DataOf(ms)|) + IndexOf(ms, 0) + DataOf(ms) + EndMark()
  }

  // ----- packing -----

  datatype File = File(path: Data, content: Data)

  /** A command line argument: not there or of another kind, a regular file, or a directory as scandir
      lists it. None stands for a file that cannot be opened. */
  datatype Source = Unusable | Regular(file: Option<File>) | Directory(files: seq<Option<File>>)

  function Basename(path: Data): Data {
    if SLASH in path then
      if path[|path| - 1] == SLASH then [] else Basename(path[..|path| - 1]) + [path[|path| - 1]]
    else path
  }

  /** How a file is stored: under its last component, and empty when its size is no int. */
  function Stored(f: File): Member {
    Member(Basename(f.path), if |f.content| > INT_MAX then [] else f.content)
  }

  function Opened(fs: seq<Option<File>>): seq<Member> {
    if fs == [] then []
    else Opened(fs[..|fs| - 1]) + if fs[|fs| - 1].Some? then [Stored(fs[|fs| - 1].value)] else []
  }

  function Contributed(a: Source): seq<Member> {
    match a
    case Unusable => []
    case Regular(f) => if f.Some? then [Stored(f.value)] else []
    case Directory(fs) => Opened(fs)
  }

  function Collected(args: seq<Source>): seq<Member> {
    if args == [] then []
    else Collected(args[..|args| - 1]) + Contributed(args[|args| - 1])
  }

  lemma {:induction false} IndexAppend(a: seq<Member>, b: seq<Member>, offset: int)
    ensures IndexOf(a + b, offset) == IndexOf(a, offset) + IndexOf(b, offset + |DataOf(a)|)
  {
    hide EntryOf;
    if a == [] {
      assert a + b == b;
    } else {
      assert (a + b)[1..] == a[1..] + b;
      IndexAppend(a[1..], b, offset + |a[0].content|);
    }
  }

  lemma {:induction false} DataAppend(a: seq<Member>, b: seq<Member>)
    ensures DataOf(a + b) == DataOf(a) + DataOf(b)
  {
    if a == [] {
      assert a + b == b;
    } else {
      assert (a + b)[1..] == a[1..] + b;
      DataAppend(a[1..], b);
    }
  }

  /** The two temporary streams and the two counters of `xpak_create`. */
  class Packer {
    var findex: Data
    var indexLen: int
    var fdata: Data
    var dataLen: int
    ghost var packed: seq<Member>

    constructor ()
      ensures Valid() && packed == []
    {
      findex, indexLen, fdata, dataLen, packed := [], 0, [], 0, [];
    }

    ghost predicate Valid()
      reads this
    {
      && findex == IndexOf(packed, 0) && fdata == DataOf(packed)
      && indexLen == |findex| && dataLen == |fdata|
    }

    /** _xpak_add_file, for a file whose size is that of its content. */
    method AddFile(f: File)
      requires Valid()
      modifies this
      ensures Valid() && packed == old(packed) + [Stored(f)]
    {
      hide Basename, WriteBe, IndexOf, DataOf;
      var name := Basename(f.path);
      findex := findex + (WriteBe(|name|) + name + WriteBe(dataLen));
      indexLen := indexLen + (4 + |name| + 4 + 4);
      ghost var m := Stored(f);
      Assoc(old(findex), WriteBe(|name|) + name + WriteBe(dataLen), WriteBe(|m.content|));
      if |f.content| > INT_MAX {
        findex := findex + WriteBe(0);
      } else {
        findex := findex + WriteBe(|f.content|);
        fdata := fdata + f.content;
        dataLen := dataLen + |f.content|;
      }
      IndexAppend(packed, [m], 0);
      DataAppend(packed, [m]);
      OneMember(m, |DataOf(packed)|);
      packed := packed + [m];
    }

    method AddFiles(fs: seq<Option<File>>)
      requires Valid()
      modifies this
      ensures Valid() && packed == old(packed) + Opened(fs)
    {
      hide Stored, IndexOf, DataOf;
      var i := 0;
      while i < |fs|
        invariant Valid() && i <= |fs| && packed == old(packed) + Opened(fs[..i])
      {
        assert fs[..i + 1][..i] == fs[..i];
        if fs[i].Some? {
          AddFile(fs[i].value);
        }
        i := i + 1;
      }
      assert fs[..i] == fs;
    }
  }

  lemma OneMember(m: Member, offset: int)
    ensures IndexOf([m], offset) == EntryOf(m, offset) && DataOf([m]) == m.content
  {
    hide EntryOf;
    assert [m][1..] == [];
  }

  /** xpak_create: the bytes of the output file. */
  method Create(args: seq<Source>) returns (out: Data)
    ensures out == Archive(Collected(args))
  {
    hide Stored, IndexOf, DataOf, WriteBe;
    var p := new Packer();
    var i := 0;
    while i < |args|
      invariant p.Valid() && fresh(p) && i <= |args| && p.packed == Collected(args[..i])
    {
      assert args[..i + 1][..i] == args[..i];
      match args[i] {
        case Unusable =>
        case Regular(f) =>
          if f.Some? {
            p.AddFile(f.value);
          }
        case Directory(fs) =>
          p.AddFiles(fs);
      }
      i := i + 1;
    }
    assert args[..i] == args;
    out := StartMark();
    out := out + WriteBe(p.indexLen);
    out := out + WriteBe(p.dataLen);
    out := out + p.findex;
    out := out + p.fdata;
    out := out + EndMark();
  }
}
