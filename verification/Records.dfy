/** The records the hooks print: "{f1\nf2\n...\nf8}". */
module Records {
  import opened Decimal
  import opened Table

  /** The arguments of the hooks' sprintf calls. */
  datatype Record = Record(kind: Kind, mount: string, path: string, name: string,
                           mode: int, uid: int, gid: int, ctime: int)

  function KindText(k: Kind): string {
    match k
    case ModFile => "MODFILE"
    case Unlink => "UNLINK"
    case Rename => "RENAME"
    case Rmdir => "RMDIR"
  }

  /** The fields of a record, as text. */
  type Fields = seq<string>

  function FieldsOf(r: Record): Fields {
    [KindText(r.kind), r.mount, r.path, r.name, Dec(r.mode), Dec(r.uid), Dec(r.gid), Dec(r.ctime)]
  }

  function Join(fs: Fields): string {
    if |fs| == 0 then ""
    else if |fs| == 1 then fs[0]
    else fs[0] + "\n" + Join(fs[1..])
  }

  function Print(fs: Fields): string {
    "{" + Join(fs) + "}"
  }

  function PrintAll(rs: seq<Fields>): string {
    if rs == [] then "" else Print(rs[0]) + PrintAll(rs[1..])
  }

  function Flatten(rs: seq<Fields>): seq<string> {
    if rs == [] then [] else rs[0] + Flatten(rs[1..])
  }

  predicate CleanField(f: string) {
    forall c | c in f :: c != '\n' && c != '}' && c != '\0'
  }

  /** What the framing relies on: no separator or NUL inside a field, and a last field that is not empty. */
  predicate Clean(fs: Fields) {
    fs != [] && (forall f | f in fs :: CleanField(f)) && fs[|fs| - 1] != ""
  }

  predicate AllClean(rs: seq<Fields>) {
    forall r | r in rs :: Clean(r)
  }

  lemma {:induction false} JoinClean(fs: Fields)
    requires forall f | f in fs :: CleanField(f)
    ensures forall c | c in Join(fs) :: c != '}' && c != '\0'
  {
    if |fs| == 1 {
      assert CleanField(fs[0]);
    } else if |fs| > 1 {
      assert CleanField(fs[0]);
      JoinClean(fs[1..]);
    }
  }

  lemma {:induction false} PrintAllAppend(a: seq<Fields>, b: seq<Fields>)
    ensures PrintAll(a + b) == PrintAll(a) + PrintAll(b)
  {
    if a == [] {
      assert a + b == b;
    } else {
      assert (a + b)[1..] == a[1..] + b;
      PrintAllAppend(a[1..], b);
    }
  }

  /** The daemon's column conversion: atoi and atoll of the last four fields. */
  function KindOf(text: string): Kind {
    if text == "MODFILE" then ModFile
    else if text == "UNLINK" then Unlink
    else if text == "RENAME" then Rename
    else Rmdir
  }

  function RecordOf(fs: Fields): Record
    requires |fs| == 8
  {
    Record(KindOf(fs[0]), fs[1], fs[2], fs[3], Atoi(fs[4]), Atoi(fs[5]), Atoi(fs[6]), Atoi(fs[7]))
  }

  lemma RecordRoundTrip(r: Record)
    ensures RecordOf(FieldsOf(r)) == r
  {
    AtoiDec(r.mode);
    AtoiDec(r.uid);
    AtoiDec(r.gid);
    AtoiDec(r.ctime);
  }

  /** Only the three names can spoil a record. */
  lemma RecordClean(r: Record)
    ensures Clean(FieldsOf(r)) <==> CleanField(r.mount) && CleanField(r.path) && CleanField(r.name)
  {
    var fs := FieldsOf(r);
    assert fs[1] in fs && fs[2] in fs && fs[3] in fs;
    assert fs[7] == Dec(r.ctime);
  }
}
