/** Names in the save directory: the hex text of the MD5 of "path.epoch". */
module HexNames {
  import opened Base
  import opened Decimal

  type Byte = b: int | 0 <= b < 256

  predicate IsHex(c: char) {
    '0' <= c <= '9' || 'a' <= c <= 'f'
  }

  function HexDigit(n: nat): (c: char)
    requires n < 16
    ensures IsHex(c) && HexValue(c) == n
  {
    if n < 10 then ('0' as int + n) as char else ('a' as int + n - 10) as char
  }

  function HexValue(c: char): (n: nat)
    requires IsHex(c)
    ensures n < 16
  {
    if c <= '9' then c as int - '0' as int else c as int - 'a' as int + 10
  }

  /** "%.2x" of each byte: the high digit at even offsets, the low digit at odd ones. */
  function ToHex(src: seq<Byte>): (s: string)
    ensures |s| == 2 * |src|
  {
    seq(2 * |src|, k requires 0 <= k < 2 * |src| =>
      if k % 2 == 0 then HexDigit(src[k / 2] / 16) else HexDigit(src[k / 2] % 16))
  }

  /** The value of a hex digit in either case, or None. */
  function AnyHexValue(c: char): (v: Option<nat>)
    ensures v.Some? ==> v.value < 16
    ensures IsHex(c) ==> v == Some(HexValue(c))
  {
    if IsHex(c) then Some(HexValue(c))
    else if 'A' <= c <= 'F' then Some(c as int - 'A' as int + 10)
    else None
  }

  /** simple_strtol of two characters, base 16: a sign, the prefix 0x, or digits until the first other character. */
  function StrToL(high: char, low: char): int {
    var h, l := AnyHexValue(high), AnyHexValue(low);
    if high == '-' then 0 - (if l.Some? then l.value else 0)
    else if high == '0' && (low == 'x' || low == 'X') then 0
    else if h.None? then 0
    else if l.None? then h.value
    else 16 * h.value + l.value
  }

  /** The first `n` pairs, each cut to an unsigned char. */
  function FromHex(s: string, n: nat): (bytes: seq<Byte>)
    requires 2 * n <= |s|
    ensures |bytes| == n
  {
    seq(n, x requires 0 <= x < n => StrToL(s[2 * x], s[2 * x + 1]) % 256)
  }

  lemma DigitsBack(b: Byte)
    ensures StrToL(HexDigit(b / 16), HexDigit(b % 16)) == b
  {
    assert b == 16 * (b / 16) + b % 16;
  }

  lemma PairBack(src: seq<Byte>, x: nat)
    requires x < |src|
    ensures FromHex(ToHex(src), |src|)[x] == src[x]
  {
    var s := ToHex(src);
    assert s[2 * x] == HexDigit(src[x] / 16) && s[2 * x + 1] == HexDigit(src[x] % 16);
    DigitsBack(src[x]);
  }

  lemma FromHexToHex(src: seq<Byte>)
    ensures FromHex(ToHex(src), |src|) == src
  {
    forall x | 0 <= x < |src|
      ensures FromHex(ToHex(src), |src|)[x] == src[x]
    {
      PairBack(src, x);
    }
  }

  /** `src` is written two characters at a time; each sprintf also writes a NUL behind them. */
  method BackupfsToHex(dst: array<char>, src: seq<Byte>)
    requires dst.Length > 2 * |src|
    modifies dst
    ensures dst[..2 * |src|] == ToHex(src)
    ensures src != [] ==> dst[2 * |src|] == '\0'
    ensures forall k | 2 * |src| < k < dst.Length :: dst[k] == old(dst[k])
  {
    for x := 0 to |src|
      invariant forall k | 0 <= k < 2 * x :: dst[k] == ToHex(src)[k]
      invariant x > 0 ==> dst[2 * x] == '\0'
      invariant forall k | 2 * x < k < dst.Length :: dst[k] == old(dst[k])
    {
      dst[2 * x], dst[2 * x + 1], dst[2 * x + 2] := HexDigit(src[x] / 16), HexDigit(src[x] % 16), '\0';
      assert ToHex(src)[2 * x] == HexDigit(src[x] / 16) && ToHex(src)[2 * x + 1] == HexDigit(src[x] % 16);
    }
  }

  method BackupfsFromHex(dst: array<Byte>, src: string, dstSize: nat)
    requires 2 * dstSize <= |src| && dstSize <= dst.Length
    modifies dst
    ensures dst[..dstSize] == FromHex(src, dstSize)
    ensures forall k | dstSize <= k < dst.Length :: dst[k] == old(dst[k])
  {
    for x := 0 to dstSize
      invariant forall k | 0 <= k < x :: dst[k] == FromHex(src, dstSize)[k]
      invariant forall k | x <= k < dst.Length :: dst[k] == old(dst[k])
    {
      dst[x] := StrToL(src[2 * x], src[2 * x + 1]) % 256;
    }
  }

  // ---- Saved names ----

  const PAGE_SIZE: nat := 4096

  /** snprintf of "%s.%ld" into a page. */
  function SaveKey(p: Path, epoch: Time): string {
    var text := p + "." + Dec(epoch);
    if |text| < PAGE_SIZE then text else text[..PAGE_SIZE - 1]
  }

  /** 32 bytes of the digest buffer in hex, cut at 32 characters. */
  function SavedName(md5: string -> seq<Byte>, p: Path, epoch: Time): string {
    var digest := md5(SaveKey(p, epoch));
    var text := ToHex(digest + seq(PAGE_SIZE, _ => 0));
    text[..32]
  }

  lemma SavedNameIsDigest(md5: string -> seq<Byte>, p: Path, epoch: Time)
    requires |md5(SaveKey(p, epoch))| == 16
    ensures SavedName(md5, p, epoch) == ToHex(md5(SaveKey(p, epoch)))
  {
    var digest := md5(SaveKey(p, epoch));
    var buffer := digest + seq(PAGE_SIZE, _ => 0);
    forall k | 0 <= k < 32
      ensures ToHex(buffer)[k] == ToHex(digest)[k]
    {
      assert buffer[k / 2] == digest[k / 2];
    }
  }

  /** Names that fit a page collide exactly when path and epoch agree or the digests collide. */
  lemma SavedNamesCollideExactly(md5: string -> seq<Byte>, p: Path, e: Time, q: Path, f: Time)
    requires |p + "." + Dec(e)| < PAGE_SIZE && |q + "." + Dec(f)| < PAGE_SIZE
    requires |md5(SaveKey(p, e))| == 16 && |md5(SaveKey(q, f))| == 16
    ensures SavedName(md5, p, e) == SavedName(md5, q, f) <==>
            (p == q && e == f) || (SaveKey(p, e) != SaveKey(q, f) && md5(SaveKey(p, e)) == md5(SaveKey(q, f)))
  {
    SavedNameIsDigest(md5, p, e);
    SavedNameIsDigest(md5, q, f);
    FromHexToHex(md5(SaveKey(p, e)));
    FromHexToHex(md5(SaveKey(q, f)));
    if SaveKey(p, e) == SaveKey(q, f) {
      DottedInjective(p, e, q, f);
    }
  }

  /** A path that fills the page loses its epoch: all its versions share one name. */
  lemma LongPathsLoseTheirEpoch(md5: string -> seq<Byte>, p: Path, e: Time, f: Time)
    requires |p| >= PAGE_SIZE - 1
    ensures SavedName(md5, p, e) == SavedName(md5, p, f)
  {
    assert SaveKey(p, e) == p[..PAGE_SIZE - 1] == SaveKey(p, f);
  }

  /** The key holds the whole path and epoch when they fit, and its page when they do not. */
  lemma EpochLostExactly(p: Path)
    ensures (forall e, f :: SaveKey(p, e) == SaveKey(p, f)) <==> |p| >= PAGE_SIZE - 2
  {
    if |p| >= PAGE_SIZE - 2 {
      forall e, f
        ensures SaveKey(p, e) == SaveKey(p, f)
      {
        assert SaveKey(p, e) == (p + ".")[..PAGE_SIZE - 1] == SaveKey(p, f);
      }
    } else {
      DecShortest(1);
      assert Dec(1) == "1" && Dec(2) == "2";
      var a, b := SaveKey(p, 1), SaveKey(p, 2);
      assert a[|p| + 1] == '1' && b[|p| + 1] == '2';
    }
  }

  /** Upper-case digits count too; a sign negates, a prefix is skipped, and other characters end the number. */
  lemma OddPairs(high: char, low: char)
    ensures 'A' <= high <= 'F' && 'A' <= low <= 'F' ==>
              StrToL(high, low) == 16 * (high as int - 'A' as int + 10) + (low as int - 'A' as int + 10)
    ensures '0' <= low <= '9' ==> StrToL('-', low) == -(low as int - '0' as int)
    ensures StrToL('0', 'x') == 0 == StrToL('0', 'X')
    ensures !IsHex(high) && !('A' <= high <= 'F') && high != '-' ==> StrToL(high, low) == 0
    ensures '1' <= high <= '9' && !IsHex(low) && !('A' <= low <= 'F') ==> StrToL(high, low) == high as int - '0' as int
  {
  }
}
