/** parse_event_buffer: a framed parser that slides the unfinished tail to the front of its own buffer. */
module Parser {
  import opened Records

  predicate StopChar(c: char) {
    c == '\n' || c == '}'
  }

  // ---- What the three nested loops compute ----

  /** The innermost loop: the first separator or bracket from `i` on. */
  function FieldEnd(s: string, i: nat): (e: nat)
    requires i <= |s|
    ensures i <= e <= |s|
    ensures e < |s| ==> StopChar(s[e])
    ensures forall k | i <= k < e :: !StopChar(s[k])
    decreases |s| - i
  {
    if i == |s| || StopChar(s[i]) then i else FieldEnd(s, i + 1)
  }

  /** The fields of one record from `i` on, and where scanning goes on. */
  function ScanFields(s: string, i: nat, last: nat): (r: (seq<string>, nat))
    requires i <= last < |s| && s[last] == '}'
    ensures i <= r.1 <= last + 1
    ensures r.0 != [] && r.1 == last + 1 ==> r.0[|r.0| - 1] != ""
    ensures r.0 == [] ==> r.1 == i
    decreases last - i
  {
    if i == last || s[i] == '}' then ([], i)
    else
      var e := FieldEnd(s, i);
      if s[e] == '}' then ([s[i..e]], e + 1)
      else
        var (fs, next) := ScanFields(s, e + 1, last);
        ([s[i..e]] + fs, next)
  }

  /** The outer loop. */
  function Scan(s: string, i: nat, last: nat): (r: (seq<string>, nat))
    requires i <= last + 1 && last < |s| && s[last] == '}'
    ensures i <= r.1 <= last + 1
    ensures r.1 == last + 1 && i <= last ==> r.0 != [] && r.0[|r.0| - 1] != ""
    decreases last + 1 - i
  {
    if i < last && s[i] == '{' then
      var (fs, next) := ScanFields(s, i + 1, last);
      var (rest, end) := Scan(s, next, last);
      (fs + rest, end)
    else ([], i)
  }

  /** memrchr */
  function LastBracket(s: string): (k: nat)
    requires '}' in s
    ensures k < |s| && s[k] == '}' && forall j | k < j < |s| :: s[j] != '}'
  {
    if s[|s| - 1] == '}' then |s| - 1
    else
      assert s == s[..|s| - 1] + [s[|s| - 1]];
      LastBracket(s[..|s| - 1])
  }

  /** The residue loop stops at a NUL. */
  function UpToNul(s: string): (t: string)
    ensures t <= s && '\0' !in t
    ensures |t| < |s| ==> s[|t|] == '\0'
    ensures '\0' !in s ==> t == s
  {
    if s == [] || s[0] == '\0' then [] else [s[0]] + UpToNul(s[1..])
  }

  function ScanEnd(s: string): (end: nat)
    requires '}' in s
    ensures end <= LastBracket(s) + 1
  {
    Scan(s, 0, LastBracket(s)).1
  }

  /** Scanning reaches the last bracket. */
  predicate Framed(s: string) {
    '}' in s && ScanEnd(s) == LastBracket(s) + 1
  }

  function ParsedFields(s: string): seq<string>
    requires '}' in s
  {
    Scan(s, 0, LastBracket(s)).0
  }

  function Residue(s: string): string
    requires '}' in s
  {
    UpToNul(s[LastBracket(s) + 1..])
  }

  /** No field of any input holds a separator or a bracket. */
  predicate Plain(f: string) {
    forall c | c in f :: !StopChar(c)
  }

  lemma {:induction false} ScanFieldsPlain(s: string, i: nat, last: nat)
    requires i <= last < |s| && s[last] == '}'
    ensures forall f | f in ScanFields(s, i, last).0 :: Plain(f)
    decreases last - i
  {
    if i < last && s[i] != '}' {
      var e := FieldEnd(s, i);
      if s[e] != '}' {
        ScanFieldsPlain(s, e + 1, last);
      }
    }
  }

  lemma {:induction false} ScanPlain(s: string, i: nat, last: nat)
    requires i <= last + 1 && last < |s| && s[last] == '}'
    ensures forall f | f in Scan(s, i, last).0 :: Plain(f)
    decreases last + 1 - i
  {
    if i < last && s[i] == '{' {
      ScanFieldsPlain(s, i + 1, last);
      ScanPlain(s, ScanFields(s, i + 1, last).1, last);
    }
  }

  // ---- The parser undoes the printer ----

  predicate At(s: string, i: nat, t: string) {
    i + |t| <= |s| && forall k | 0 <= k < |t| :: s[i + k] == t[k]
  }

  lemma AtSplit(s: string, i: nat, a: string, b: string)
    requires At(s, i, a + b)
    ensures At(s, i, a) && At(s, i + |a|, b)
  {
    assert forall k | 0 <= k < |a| :: (a + b)[k] == a[k];
    forall k | 0 <= k < |b|
      ensures s[i + |a| + k] == b[k]
    {
      assert (a + b)[|a| + k] == b[k];
    }
  }

  lemma FieldEndAt(s: string, i: nat, f: string, k: nat)
    requires k <= |f| && At(s, i, f) && i + |f| < |s| && StopChar(s[i + |f|]) && Plain(f)
    ensures FieldEnd(s, i + k) == i + |f|
    decreases |f| - k
  {
    if k < |f| {
      assert s[i + k] == f[k];
      FieldEndAt(s, i, f, k + 1);
    }
  }

  /** A field ended by `stop`, at `i`. */
  lemma FieldAt(s: string, i: nat, f: string, stop: char)
    requires CleanField(f) && StopChar(stop) && At(s, i, f + [stop])
    ensures FieldEnd(s, i) == i + |f| && s[i + |f|] == stop && s[i..i + |f|] == f
    ensures f != "" ==> !StopChar(s[i])
  {
    AtSplit(s, i, f, [stop]);
    assert s[i + |f| + 0] == [stop][0];
    FieldEndAt(s, i, f, 0);
    if f != "" {
      assert s[i + 0] == f[0];
    }
  }

  lemma ScanOneField(s: string, i: nat, last: nat, f: string)
    requires CleanField(f) && At(s, i, f + "\n")
    requires i + |f| < last < |s| && s[last] == '}'
    ensures
      var rest := ScanFields(s, i + |f| + 1, last);
      ScanFields(s, i, last) == ([f] + rest.0, rest.1)
  {
    FieldAt(s, i, f, '\n');
  }

  lemma ScanLastField(s: string, i: nat, last: nat, f: string)
    requires CleanField(f) && f != "" && At(s, i, f + "}")
    requires i + |f| <= last < |s| && s[last] == '}'
    ensures ScanFields(s, i, last) == ([f], i + |f| + 1)
  {
    FieldAt(s, i, f, '}');
  }

  lemma CleanTail(fs: Fields)
    requires Clean(fs) && |fs| > 1
    ensures CleanField(fs[0]) && Clean(fs[1..])
  {
    assert forall f | f in fs[1..] :: f in fs;
  }

  lemma JoinSplit(fs: Fields)
    requires |fs| > 1
    ensures Join(fs) + "}" == (fs[0] + "\n") + (Join(fs[1..]) + "}")
    ensures |Join(fs)| == |fs[0]| + 1 + |Join(fs[1..])|
  {
  }

  lemma {:induction false} ScanFieldsJoin(s: string, i: nat, last: nat, fs: Fields)
    requires Clean(fs) && At(s, i, Join(fs) + "}")
    requires i + |Join(fs)| <= last < |s| && s[last] == '}'
    ensures ScanFields(s, i, last) == (fs, i + |Join(fs)| + 1)
    decreases |fs|
  {
    if |fs| == 1 {
      ScanLastField(s, i, last, fs[0]);
      assert [fs[0]] == fs;
    } else {
      CleanTail(fs);
      JoinSplit(fs);
      AtSplit(s, i, fs[0] + "\n", Join(fs[1..]) + "}");
      ScanOneField(s, i, last, fs[0]);
      ScanFieldsJoin(s, i + |fs[0]| + 1, last, fs[1..]);
      assert [fs[0]] + fs[1..] == fs;
    }
  }

  lemma ScanOneRecord(s: string, i: nat, last: nat, r: Fields)
    requires Clean(r) && At(s, i, Print(r))
    requires i + |Print(r)| <= last + 1 && last < |s| && s[last] == '}'
    ensures
      var rest := Scan(s, i + |Print(r)|, last);
      Scan(s, i, last) == (r + rest.0, rest.1)
  {
    assert Print(r) == "{" + (Join(r) + "}");
    AtSplit(s, i, "{", Join(r) + "}");
    assert s[i + 0] == "{"[0];
    ScanFieldsJoin(s, i + 1, last, r);
  }

  lemma FirstRecord(s: string, i: nat, rs: seq<Fields>)
    requires rs != [] && AllClean(rs) && At(s, i, PrintAll(rs))
    ensures Clean(rs[0]) && At(s, i, Print(rs[0]))
    ensures AllClean(rs[1..]) && At(s, i + |Print(rs[0])|, PrintAll(rs[1..]))
    ensures |PrintAll(rs)| == |Print(rs[0])| + |PrintAll(rs[1..])|
  {
    AtSplit(s, i, Print(rs[0]), PrintAll(rs[1..]));
  }

  lemma ScanMore(s: string, i: nat, last: nat, rs: seq<Fields>, next: nat)
    requires rs != [] && Clean(rs[0]) && At(s, i, Print(rs[0]))
    requires i + |Print(rs[0])| <= last + 1 && next <= last + 1 && last < |s| && s[last] == '}'
    requires Scan(s, i + |Print(rs[0])|, last) == Prepend(Flatten(rs[1..]), Scan(s, next, last))
    ensures Scan(s, i, last) == Prepend(Flatten(rs), Scan(s, next, last))
  {
    ScanOneRecord(s, i, last, rs[0]);
    PrependMore(rs[0], Flatten(rs[1..]), Scan(s, next, last));
  }

  /** Whole records are scanned one after the other; what follows them decides how it goes on. */
  lemma {:induction false} ScanRecords(s: string, i: nat, last: nat, rs: seq<Fields>, next: nat)
    requires AllClean(rs) && At(s, i, PrintAll(rs)) && next == i + |PrintAll(rs)|
    requires next <= last + 1 && last < |s| && s[last] == '}'
    ensures Scan(s, i, last) == Prepend(Flatten(rs), Scan(s, next, last))
    decreases |rs|
  {
    if rs == [] {
      PrependUnit([], Scan(s, next, last));
    } else {
      FirstRecord(s, i, rs);
      ScanRecords(s, i + |Print(rs[0])|, last, rs[1..], next);
      ScanMore(s, i, last, rs, next);
    }
  }

  lemma ScanPrintAll(s: string, i: nat, last: nat, rs: seq<Fields>)
    requires AllClean(rs) && At(s, i, PrintAll(rs))
    requires last < |s| && s[last] == '}' && i + |PrintAll(rs)| == last + 1
    ensures Scan(s, i, last) == (Flatten(rs), last + 1)
  {
    ScanRecords(s, i, last, rs, last + 1);
    PrependUnit(Flatten(rs), Scan(s, last + 1, last));
  }

  lemma {:induction false} PrintAllEnds(rs: seq<Fields>)
    requires rs != []
    ensures PrintAll(rs) != "" && PrintAll(rs)[|PrintAll(rs)| - 1] == '}'
  {
    if |rs| > 1 {
      PrintAllEnds(rs[1..]);
    }
  }

  /** One call returns exactly the fields of the whole records and keeps exactly the unfinished tail. */
  lemma ParseUndoesPrint(rs: seq<Fields>, tail: string)
    requires rs != [] && AllClean(rs)
    requires '}' !in tail && '\0' !in tail
    ensures
      var s := PrintAll(rs) + tail;
      && '}' in s && Framed(s) && LastBracket(s) == |PrintAll(rs)| - 1
      && ParsedFields(s) == Flatten(rs) && Residue(s) == tail
  {
    var text := PrintAll(rs);
    var s := text + tail;
    PrintAllEnds(rs);
    assert s[|text| - 1] == '}';
    var last := LastBracket(s);
    assert forall j | |text| <= j < |s| :: s[j] == tail[j - |text|] && s[j] != '}';
    assert At(s, 0, text);
    ScanPrintAll(s, 0, last, rs);
    assert s[last + 1..] == tail;
  }

  /** Parsing stops at the first byte between records that opens none; what follows is not looked at. */
  lemma StopsAtGarbage(rs: seq<Fields>, junk: string)
    requires AllClean(rs) && '}' in junk && junk[0] != '{'
    ensures
      var s := PrintAll(rs) + junk;
      '}' in s && ParsedFields(s) == Flatten(rs) && ScanEnd(s) == |PrintAll(rs)|
  {
    var text := PrintAll(rs);
    var s := text + junk;
    var k :| 0 <= k < |junk| && junk[k] == '}';
    assert s[|text| + k] == '}' && s[|text|] == junk[0];
    assert At(s, 0, text);
    ScanRecords(s, 0, LastBracket(s), rs, |text|);
    PrependUnit(Flatten(rs), ([], |text|));
  }

  /** A printed record comes back unchanged exactly when it is clean. */
  lemma ParsesBackExactly(fs: Fields)
    requires forall f | f in fs :: '\0' !in f
    ensures (Framed(Print(fs)) && ParsedFields(Print(fs)) == fs) <==> Clean(fs)
  {
    if Clean(fs) {
      assert PrintAll([fs]) + "" == Print(fs);
      assert Flatten([fs]) == fs;
      ParseUndoesPrint([fs], "");
    } else if '}' in Print(fs) {
      ScanPlain(Print(fs), 0, LastBracket(Print(fs)));
    }
  }

  // ---- The C loops, in place ----

  lemma {:induction false} UpToNulIs(s: string, k: nat)
    requires k <= |s| && '\0' !in s[..k] && (k < |s| ==> s[k] == '\0')
    ensures UpToNul(s) == s[..k]
  {
    if k > 0 {
      assert s[0] == s[..k][0];
      assert s[..k] == [s[0]] + s[1..][..k - 1];
      UpToNulIs(s[1..], k - 1);
    }
  }

  ghost predicate Holds(buff: array<char>, s: string)
    reads buff
  {
    |s| <= buff.Length && forall k | 0 <= k < |s| :: buff[k] == s[k]
  }

  /** The innermost loop: copy one field. */
  method CopyField(buff: array<char>, ghost s: string, last: nat, start: nat) returns (i: nat, field: string)
    requires start <= last < |s| && Holds(buff, s) && s[last] == '}'
    ensures start <= i <= last && i == FieldEnd(s, start) && field == s[start..i]
  {
    i, field := start, "";
    while buff[i] != '\n' && buff[i] != '}'
      invariant start <= i <= last && field == s[start..i] && FieldEnd(s, i) == FieldEnd(s, start)
      decreases last - i
    {
      field := field + [buff[i]];
      i := i + 1;
    }
  }

  lemma FieldsStep(fs: seq<string>, s: string, i: nat, last: nat)
    requires i < last < |s| && s[last] == '}' && s[i] != '}'
    ensures
      var e := FieldEnd(s, i);
      && e <= last
      && Prepend(fs, ScanFields(s, i, last))
         == if s[e] == '}' then (fs + [s[i..e]], e + 1) else Prepend(fs + [s[i..e]], ScanFields(s, e + 1, last))
  {
    var e := FieldEnd(s, i);
    var f := s[i..e];
    if s[e] != '}' {
      PrependMore(fs, [f], ScanFields(s, e + 1, last));
    }
  }

  /** The body of the middle loop: one field, and the character that ended it. */
  method CopyNext(buff: array<char>, ghost s: string, last: nat, from: nat, before: seq<string>)
    returns (i: nat, fields: seq<string>, closed: bool)
    requires from < last < |s| && Holds(buff, s) && s[last] == '}' && s[from] != '}'
    ensures from < i <= last + 1 && (!closed ==> i <= last)
    ensures Prepend(before, ScanFields(s, from, last))
            == if closed then (fields, i) else Prepend(fields, ScanFields(s, i, last))
  {
    FieldsStep(before, s, from, last);
    var field;
    i, field := CopyField(buff, s, last, from);
    closed := buff[i] == '}';
    i, fields := i + 1, before + [field];
  }

  /** The middle loop: the fields of one record. */
  method CopyFields(buff: array<char>, ghost s: string, last: nat, start: nat) returns (i: nat, fields: seq<string>)
    requires start <= last < |s| && Holds(buff, s) && s[last] == '}'
    ensures (fields, i) == ScanFields(s, start, last)
  {
    i, fields := start, [];
    ghost var all := ScanFields(s, start, last);
    PrependUnit(fields, all);
    while buff[i] != '}' && i < last
      invariant start <= i <= last
      invariant all == Prepend(fields, ScanFields(s, i, last))
      decreases last - i
    {
      var closed;
      i, fields, closed := CopyNext(buff, s, last, i, fields);
      if closed {
        return;
      }
    }
    PrependUnit(fields, ([], i));
  }

  ghost function Prepend(fs: seq<string>, r: (seq<string>, nat)): (seq<string>, nat) {
    (fs + r.0, r.1)
  }

  lemma PrependUnit(fs: seq<string>, r: (seq<string>, nat))
    ensures Prepend([], r) == r && Prepend(fs, ([], r.1)) == (fs, r.1)
  {
    assert [] + r.0 == r.0 && fs + [] == fs;
  }

  lemma PrependMore(fs: seq<string>, gs: seq<string>, r: (seq<string>, nat))
    ensures Prepend(fs, Prepend(gs, r)) == Prepend(fs + gs, r)
  {
    assert fs + (gs + r.0) == (fs + gs) + r.0;
  }

  /**
   * What the copy loop leaves at the front when scanning stopped at `end`: it takes
   * `buflen - end` bytes from behind the last bracket, up to a NUL. They end inside the
   * data exactly when scanning reached the bracket; otherwise older bytes are taken in.
   */
  function Slid(buff: string, buflen: nat, last: nat, end: nat): (t: string)
    requires end <= last + 1 <= buflen < |buff|
    ensures '\0' !in t
  {
    if buff[end] == '\0' then [] else UpToNul(Window(buff, last + 1, buflen - end))
  }

  /** `n` bytes from `at`, or those there are. */
  function Window(buff: string, at: nat, n: nat): string
    requires at <= |buff|
  {
    if at + n <= |buff| then buff[at..at + n] else buff[at..]
  }

  /** The copy loop reads no cell behind the buffer. */
  predicate StaysInside(buff: string, buflen: nat, last: nat, end: nat)
    requires end <= last + 1 <= buflen < |buff|
  {
    last + 1 + (buflen - end) < |buff| || '\0' in buff[last + 1..]
  }

  lemma SlidFits(buff: string, buflen: nat, last: nat, end: nat)
    requires end <= last + 1 <= buflen < |buff|
    ensures |Slid(buff, buflen, last, end)| < |buff|
  {
  }

  lemma TightSlide(buff: string, buflen: nat, last: nat)
    requires last + 1 <= buflen < |buff|
    ensures StaysInside(buff, buflen, last, last + 1)
    ensures Slid(buff, buflen, last, last + 1) == UpToNul(buff[..buflen][last + 1..])
  {
    var n := buflen - (last + 1);
    assert Window(buff, last + 1, n) == buff[last + 1..buflen] == buff[..buflen][last + 1..];
    if buff[last + 1] == '\0' && n > 0 {
      assert buff[..buflen][last + 1..][0] == '\0';
    }
  }

  /** Where there is no NUL, as many bytes slide as were left unscanned. */
  lemma SlidesUnscanned(buff: string, buflen: nat, last: nat, end: nat)
    requires end <= last + 1 <= buflen < |buff| && last + 1 + (buflen - end) <= |buff|
    requires buff[end] != '\0' && '\0' !in buff[last + 1..last + 1 + (buflen - end)]
    ensures Slid(buff, buflen, last, end) == buff[last + 1..last + 1 + (buflen - end)]
  {
  }

  /** On framed data the bytes behind them do not matter. */
  lemma FramedSlides(buff: string, buflen: nat)
    requires buflen < |buff| && Framed(buff[..buflen])
    ensures
      var s := buff[..buflen];
      && StaysInside(buff, buflen, LastBracket(s), ScanEnd(s))
      && Slid(buff, buflen, LastBracket(s), ScanEnd(s)) == Residue(s)
  {
    var s := buff[..buflen];
    assert ScanEnd(s) == LastBracket(s) + 1;
    TightSlide(buff, buflen, LastBracket(s));
  }

  /** The code also reads the byte at offset `buflen`: the buffer has one cell more than the data. */
  method ParseEventBuffer(buff: array<char>, buflen: nat) returns (len: nat, parsed: seq<string>)
    requires buflen < buff.Length && '}' in buff[..buflen]
    requires StaysInside(buff[..], buflen, LastBracket(buff[..buflen]), ScanEnd(buff[..buflen]))
    modifies buff
    ensures parsed == ParsedFields(old(buff[..buflen]))
    ensures
      var s := old(buff[..buflen]);
      len <= buff.Length && buff[..len] == Slid(old(buff[..]), buflen, LastBracket(s), ScanEnd(s))
  {
    ghost var s := buff[..buflen];
    var last := LastBracket(buff[..buflen]);
    var i;
    i, parsed := CopyRecords(buff, s, last);
    assert i == ScanEnd(s);
    len := MoveResidue(buff, buflen, last, i);
  }

  /** The outer loop: records until the last bracket. */
  method CopyRecords(buff: array<char>, ghost s: string, last: nat) returns (i: nat, parsed: seq<string>)
    requires last < |s| && Holds(buff, s) && s[last] == '}'
    ensures (parsed, i) == Scan(s, 0, last)
  {
    i, parsed := 0, [];
    ghost var all := Scan(s, 0, last);
    PrependUnit(parsed, all);
    while i < last
      invariant i <= last + 1
      invariant all == Prepend(parsed, Scan(s, i, last))
      decreases last + 1 - i
    {
      if buff[i] != '{' {
        break;
      }
      var fields;
      i, fields := CopyFields(buff, s, last, i + 1);
      PrependMore(parsed, fields, Scan(s, i, last));
      parsed := parsed + fields;
    }
    PrependUnit(parsed, ([], i));
  }

  /** Where the copy loop stops at the latest. */
  lemma CopyBound(buff: string, buflen: nat, last: nat, at: nat) returns (bound: nat)
    requires at <= last + 1 <= buflen < |buff| && StaysInside(buff, buflen, last, at)
    ensures last + 1 <= bound < |buff|
    ensures bound == last + 1 + (buflen - at) || (bound < last + 1 + (buflen - at) && buff[bound] == '\0')
  {
    bound := last + 1 + (buflen - at);
    if bound >= |buff| {
      var z :| 0 <= z < |buff[last + 1..]| && buff[last + 1..][z] == '\0';
      bound := last + 1 + z;
    }
  }

  /** The bytes behind the last bracket slide to the front, up to a NUL or for `buflen - at` steps. */
  method MoveResidue(buff: array<char>, buflen: nat, last: nat, at: nat) returns (len: nat)
    requires at <= last + 1 <= buflen < buff.Length
    requires StaysInside(buff[..], buflen, last, at)
    modifies buff
    ensures len <= buff.Length && buff[..len] == Slid(old(buff[..]), buflen, last, at)
  {
    ghost var was := buff[..];
    ghost var tail := Window(was, last + 1, buflen - at);
    ghost var bound := CopyBound(was, buflen, last, at);
    var i := at;
    if buff[i] != '\0' {
      var c, j := last + 1, 0;
      while buff[c] != '\0' && i < buflen
        invariant i == at + j <= buflen && c == last + 1 + j <= bound
        invariant j <= |tail| && buff[..j] == tail[..j] && '\0' !in tail[..j]
        invariant forall k | c <= k < buff.Length :: buff[k] == was[k]
        decreases buflen - i
      {
        assert tail[..j + 1] == tail[..j] + [tail[j]];
        buff[j] := buff[c];
        c, i, j := c + 1, i + 1, j + 1;
      }
      UpToNulIs(tail, j);
      len := j;
      buff[j] := '\0';
      assert buff[..j] == tail[..j];
    } else {
      len := 0;
    }
  }
}
