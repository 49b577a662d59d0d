/** Cutting a stream of printed records at any byte. */
module Stream {
  import opened Records
  import opened Parser

  /** The daemon's grouping: eight fields a row, as many rows as fit. */
  function Groups(fs: seq<string>): seq<Fields>
    decreases |fs|
  {
    if |fs| < 8 then [] else [fs[..8]] + Groups(fs[8..])
  }

  /** The i-th row holds fields 8i to 8i + 7; up to seven fields that are left make no row. */
  lemma {:induction false} GroupsExactly(fs: seq<string>, i: nat)
    ensures |Groups(fs)| == |fs| / 8
    ensures i < |fs| / 8 ==> Groups(fs)[i] == fs[8 * i..8 * i + 8]
    decreases |fs|
  {
    if |fs| >= 8 {
      GroupsExactly(fs[8..], if i > 0 then i - 1 else 0);
      if 0 < i < |fs| / 8 {
        assert fs[8..][8 * (i - 1)..8 * (i - 1) + 8] == fs[8 * i..8 * i + 8];
      }
    }
  }

  predicate AllRows(rs: seq<Fields>) {
    forall r | r in rs :: |r| == 8
  }

  lemma {:induction false} GroupsFlatten(rs: seq<Fields>)
    requires AllRows(rs)
    ensures Groups(Flatten(rs)) == rs && |Flatten(rs)| == 8 * |rs|
  {
    if rs != [] {
      assert |rs[0]| == 8;
      GroupsFlatten(rs[1..]);
      assert Flatten(rs)[..8] == rs[0] && Flatten(rs)[8..] == Flatten(rs[1..]);
    }
  }

  lemma ProperPrefixOpen(r: Fields, data: string, rest: string)
    requires Clean(r) && data + rest == Print(r) && rest != ""
    ensures '}' !in data && '\0' !in data
  {
    JoinClean(r);
    var text := "{" + Join(r);
    assert |data| <= |text|;
    assert forall c | c in text :: c == '{' || c in Join(r);
    forall k | 0 <= k < |data|
      ensures data[k] in text
    {
      assert data[k] == (data + rest)[k] == (text + "}")[k] == text[k];
    }
  }

  /** How many whole records the front of the stream holds. */
  function Whole(data: string, rs: seq<Fields>): (m: nat)
    ensures m <= |rs|
    decreases |rs|
  {
    if rs == [] || |data| < |Print(rs[0])| then 0
    else 1 + Whole(data[|Print(rs[0])|..], rs[1..])
  }

  /** The front of a stream is whole records and then an unfinished one. */
  lemma {:induction false} CutStream(data: string, rest: string, rs: seq<Fields>) returns (tail: string)
    requires AllClean(rs) && data + rest == PrintAll(rs)
    ensures data == PrintAll(rs[..Whole(data, rs)]) + tail
    ensures '}' !in tail && '\0' !in tail
    ensures tail != "" ==> Whole(data, rs) < |rs| && |tail| < |Print(rs[Whole(data, rs)])|
    decreases |rs|
  {
    if rs == [] {
      tail := "";
    } else {
      assert Clean(rs[0]);
      var head := Print(rs[0]);
      if |data| < |head| {
        tail := data;
        assert data == (data + rest)[..|data|] == head[..|data|];
        ProperPrefixOpen(rs[0], data, head[|data|..]);
      } else {
        assert data == head + data[|head|..] by {
          assert data[..|head|] == (data + rest)[..|head|] == head;
        }
        assert data[|head|..] + rest == (data + rest)[|head|..] == PrintAll(rs[1..]);
        assert AllClean(rs[1..]);
        tail := CutStream(data[|head|..], rest, rs[1..]);
        var m := Whole(data[|head|..], rs[1..]);
        assert rs[..m + 1][0] == rs[0] && rs[..m + 1][1..] == rs[1..][..m];
      }
    }
  }

  /** One call of the parser on such data, with the daemon's grouping. */
  lemma ParseStream(data: string, rest: string, rs: seq<Fields>)
    requires AllClean(rs) && AllRows(rs) && data + rest == PrintAll(rs) && '}' in data
    ensures
      var m := Whole(data, rs);
      && m >= 1 && Framed(data) && Groups(ParsedFields(data)) == rs[..m] && |ParsedFields(data)| == 8 * m
      && data == PrintAll(rs[..m]) + Residue(data)
      && '}' !in Residue(data)
      && (Residue(data) != "" ==> m < |rs| && |Residue(data)| < |Print(rs[m])|)
  {
    var tail := CutStream(data, rest, rs);
    ParseWhole(data, rs[..Whole(data, rs)], tail);
  }

  lemma ParseWhole(data: string, whole: seq<Fields>, tail: string)
    requires AllClean(whole) && AllRows(whole) && data == PrintAll(whole) + tail && '}' in data
    requires '}' !in tail && '\0' !in tail
    ensures whole != [] && Framed(data) && Residue(data) == tail
    ensures Groups(ParsedFields(data)) == whole && |ParsedFields(data)| == 8 * |whole|
  {
    assert PrintAll([]) + tail == tail;
    ParseUndoesPrint(whole, tail);
    GroupsFlatten(whole);
  }

  /** Each field of a record of 32 bytes or more costs at least four bytes of the stream. */
  lemma {:induction false} FieldTableBound(rs: seq<Fields>)
    requires AllRows(rs) && forall r | r in rs :: |Print(r)| >= 32
    ensures 4 * |Flatten(rs)| <= |PrintAll(rs)|
  {
    if rs != [] {
      assert rs[0] in rs && |rs[0]| == 8;
      FieldTableBound(rs[1..]);
    }
  }

  lemma {:induction false} JoinHolds(fs: Fields, k: nat)
    requires k < |fs|
    ensures |fs[k]| <= |Join(fs)|
  {
    if |fs| > 1 && k > 0 {
      JoinHolds(fs[1..], k - 1);
    }
  }

  const SZ: nat := 4096
  const MAX_UPDATES: nat := SZ / 4

  /** Records of 32 bytes or more never overflow parsed_buff[MAX_UPDATES][SZ]. */
  lemma FieldTableHolds(rs: seq<Fields>, tail: string, k: nat, j: nat)
    requires AllClean(rs) && AllRows(rs) && |PrintAll(rs) + tail| <= SZ
    requires forall r | r in rs :: |Print(r)| >= 32
    requires k < |rs| && j < 8
    ensures |Flatten(rs)| <= MAX_UPDATES && |rs[k][j]| + 1 <= SZ
  {
    FieldTableBound(rs);
    JoinHolds(rs[k], j);
    PrintedInside(rs, k);
  }

  lemma {:induction false} PrintedInside(rs: seq<Fields>, k: nat)
    requires k < |rs|
    ensures |Print(rs[k])| <= |PrintAll(rs)|
  {
    if k > 0 {
      PrintedInside(rs[1..], k - 1);
    }
  }
}
