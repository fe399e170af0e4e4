/**
 The text form of device controls: PrintVal writes the items of a control as a list of decimal
 numbers, and the loop of SetControls reads such a list back with `strtol` in base 0.
 */
module ControlCodec {
  import opened Bytes

  // ----- strtol with base 0, for 64-bit longs

  const LONG_MAX: int := 0x7FFF_FFFF_FFFF_FFFF

  predicate IsSpace(c: char) { c == ' ' || '\t' <= c <= '\r' }

  function DigitOf(c: char): (d: nat) {
    if '0' <= c <= '9' then c as int - '0' as int
    else if 'a' <= c <= 'z' then c as int - 'a' as int + 10
    else if 'A' <= c <= 'Z' then c as int - 'A' as int + 10
    else 36
  }

  /** Digits in the given base, from the left; the rest starts with the first character that is none. */
  function Digits(s: string, base: nat, acc: nat): (r: (nat, string))
    decreases |s|
  {
    if s != "" && DigitOf(s[0]) < base then Digits(s[1..], base, acc * base + DigitOf(s[0])) else (acc, s)
  }

  function Unsigned(s: string): (r: Option<(nat, string)>) {
    if s == "" || DigitOf(s[0]) >= 10 then None
    else if s[0] != '0' then Some(Digits(s, 10, 0))
    else if |s| >= 3 && (s[1] == 'x' || s[1] == 'X') && DigitOf(s[2]) < 16 then Some(Digits(s[2..], 16, 0))
    else Some(Digits(s, 8, 0))
  }

  function Signed(s: string): (r: Option<(int, string)>) {
    var negative := s != "" && s[0] == '-';
    var u := Unsigned(if s != "" && (s[0] == '-' || s[0] == '+') then s[1..] else s);
    if u.None? then None
    else
      var v: int, rest := u.value.0, u.value.1;
      Some((if negative then (if v > LONG_MAX then -LONG_MAX - 1 else -v) else if v > LONG_MAX then LONG_MAX else v, rest))
  }

  function SkipSpace(s: string): (r: string) {
    if s != "" && IsSpace(s[0]) then SkipSpace(s[1..]) else s
  }

  /** The value and the rest at `endPtr`, which is the whole text if there is no number. */
  function Strtol(s: string): (r: (int, string)) {
    var v := Signed(SkipSpace(s));
    if v.None? then (0, s) else v.value
  }

  // ----- printing

  function Digit(d: nat): (c: char)
    requires d < 10
  {
    (d + '0' as int) as char
  }

  function NatText(n: nat): (s: string)
    ensures s != "" && '0' <= s[0] <= '9' && (n > 0 ==> s[0] != '0')
  {
    if n < 10 then [Digit(n)] else NatText(n / 10) + [Digit(n % 10)]
  }

  /** The conversion %d. */
  function Text(v: int): (s: string)
    ensures s != ""
  {
    if v < 0 then "-" + NatText(-v) else NatText(v)
  }

  /** Numbers separated by commas. */
  function ListText(vs: seq<int>): (s: string) {
    if vs == [] then ""
    else if |vs| == 1 then Text(vs[0])
    else Text(vs[0]) + "," + ListText(vs[1..])
  }

  /** An item of one, two or four bytes, least significant byte first; four bytes are a signed int. */
  predicate IsItemSize(size: nat) { size == 1 || size == 2 || size == 4 }

  function ItemValue(b: seq<Byte>): (v: int)
    requires IsItemSize(|b|)
  {
    if |b| == 1 then b[0]
    else if |b| == 2 then (b[0] as int) + 0x100 * (b[1] as int)
    else var v := FromLe32(b); if v >= 0x8000_0000 then v - TWO_32 else v
  }

  function ItemValues(b: seq<Byte>, size: nat, count: nat): (vs: seq<int>)
    requires IsItemSize(size) && size * count <= |b|
    ensures |vs| == count
  {
    if count == 0 then []
    else
      var at := size * (count - 1);
      assert at + size == size * count;
      ItemValues(b, size, count - 1) + [ItemValue(b[at..at + size])]
  }

  // ----- reading

  function ItemBytes(v: int, size: nat): (b: seq<Byte>)
    requires IsItemSize(size)
    ensures |b| == size
  {
    Le32(v)[..size]
  }

  /** How many bytes so many items have. */
  ghost function Span(size: nat, k: nat): (n: nat) { size * k }

  function ListBytes(vs: seq<int>, size: nat): (b: seq<Byte>)
    requires IsItemSize(size)
    ensures |b| == Span(size, |vs|)
  {
    if vs == [] then []
    else
      var n := |vs| - 1;
      assert size * n + size == size * |vs|;
      ListBytes(vs[..n], size) + ItemBytes(vs[n], size)
  }

  /** The values that the loop takes from a text, at most `count`. */
  function Values(text: string, count: nat): (vs: seq<int>)
    ensures |vs| <= count && (count > 0 ==> vs != [])
    decreases count
  {
    if count == 0 then []
    else
      var (v, rest) := Strtol(text);
      if rest == "" || rest[0] != ',' then [v] else [v] + Values(rest[1..], count - 1)
  }

  // ----- a number that was printed is read back

  predicate Ends(tail: string) { tail == "" || tail[0] == ',' }

  lemma {:induction false} DigitsBack(n: nat, tail: string)
    ensures Digits(NatText(n) + tail, 10, 0) == Digits(tail, 10, n)
    decreases n
  {
    var d := Digit(n % 10);
    assert DigitOf(d) == n % 10;
    if n < 10 {
      assert (NatText(n) + tail)[1..] == tail;
    } else {
      DigitsBack(n / 10, [d] + tail);
      assert NatText(n) + tail == NatText(n / 10) + ([d] + tail);
      assert ([d] + tail)[1..] == tail;
    }
  }

  lemma UnsignedBack(n: nat, tail: string)
    requires Ends(tail)
    ensures Unsigned(NatText(n) + tail) == Some((n, tail))
  {
    var s := NatText(n) + tail;
    assert s[0] == NatText(n)[0];
    if n > 0 {
      DigitsBack(n, tail);
    } else {
      assert NatText(0) == "0" && s[1..] == tail;
      assert Digits(s, 8, 0) == Digits(tail, 8, 0);
    }
  }

  /** Numbers that do not fit in a long become the nearest one that does. */
  function Saturated(v: int): (r: int)
    ensures -LONG_MAX - 1 <= r <= LONG_MAX
  {
    if v > LONG_MAX then LONG_MAX else if v < -LONG_MAX - 1 then -LONG_MAX - 1 else v
  }

  lemma StrtolBack(v: int, tail: string)
    requires Ends(tail)
    ensures Strtol(Text(v) + tail) == (Saturated(v), tail)
  {
    hide Unsigned, NatText;
    var s := Text(v) + tail;
    if v < 0 {
      UnsignedBack(-v, tail);
      assert s[0] == '-' && s[1..] == NatText(-v) + tail;
    } else {
      UnsignedBack(v, tail);
      assert s == NatText(v) + tail && s[0] == NatText(v)[0];
    }
    assert SkipSpace(s) == s;
  }

  // ----- the other forms that strtol accepts

  function DigitChar(d: nat): (c: char)
    requires d < 16
  {
    if d < 10 then Digit(d) else (d - 10 + 'a' as int) as char
  }

  function TextIn(n: nat, base: nat): (s: string)
    requires base == 8 || base == 16
    ensures s != "" && DigitOf(s[0]) < base
  {
    if n < base then [DigitChar(n)] else TextIn(n / base, base) + [DigitChar(n % base)]
  }

  lemma {:induction false} DigitsBackIn(n: nat, base: nat, tail: string)
    requires base == 8 || base == 16
    ensures Digits(TextIn(n, base) + tail, base, 0) == Digits(tail, base, n)
    decreases n
  {
    hide *;
    var q, d := n / base, n % base;
    DivMod(n, base);
    TextUnfold(n, base);
    if n < base {
      DigitsStep(d, base, 0, tail);
    } else {
      DigitsBackIn(q, base, [DigitChar(d)] + tail);
      assert TextIn(n, base) + tail == TextIn(q, base) + ([DigitChar(d)] + tail);
      DigitsStep(d, base, q, tail);
    }
  }

  lemma DivMod(n: nat, base: nat)
    requires base == 8 || base == 16
    ensures n / base * base + n % base == n && n % base < base && 0 <= n / base
    ensures if n < base then n % base == n && 0 * base + n == n else n / base < n
  {
  }

  lemma TextUnfold(n: nat, base: nat)
    requires base == 8 || base == 16
    ensures n % base < 16
    ensures TextIn(n, base) == if n < base then [DigitChar(n % base)] else TextIn(n / base, base) + [DigitChar(n % base)]
  {
    hide DigitChar;
  }

  lemma DigitsStep(d: nat, base: nat, acc: nat, tail: string)
    requires (base == 8 || base == 16) && d < base
    ensures Digits([DigitChar(d)] + tail, base, acc) == Digits(tail, base, acc * base + d)
  {
    var s := [DigitChar(d)] + tail;
    assert DigitOf(s[0]) == d && s[1..] == tail;
  }

  /** Behind 0x or 0X a number is hexadecimal. */
  lemma HexBack(n: nat, x: char, tail: string)
    requires Ends(tail) && (x == 'x' || x == 'X')
    ensures Strtol(['0', x] + TextIn(n, 16) + tail) == (Saturated(n), tail)
  {
    hide TextIn;
    var s := ['0', x] + TextIn(n, 16) + tail;
    DigitsBackIn(n, 16, tail);
    assert s[2..] == TextIn(n, 16) + tail;
    assert SkipSpace(s) == s;
  }

  /** Behind 0 it is octal. */
  lemma OctalBack(n: nat, tail: string)
    requires Ends(tail)
    ensures Strtol("0" + TextIn(n, 8) + tail) == (Saturated(n), tail)
  {
    hide TextIn;
    var s := "0" + TextIn(n, 8) + tail;
    DigitsBackIn(n, 8, tail);
    assert s[1..] == TextIn(n, 8) + tail;
    assert Digits(s, 8, 0) == Digits(s[1..], 8, 0);
    assert SkipSpace(s) == s;
  }

  /** White space in front does not matter, as long as a number follows. */
  lemma {:induction false} SpaceSkipped(spaces: string, s: string)
    requires forall i :: 0 <= i < |spaces| ==> IsSpace(spaces[i])
    requires Signed(SkipSpace(s)).Some?
    ensures Strtol(spaces + s) == Strtol(s)
  {
    if spaces == "" {
      assert spaces + s == s;
    } else {
      SpaceSkipped(spaces[1..], s);
      SkipsOne(spaces[0], spaces[1..] + s);
      assert spaces + s == [spaces[0]] + (spaces[1..] + s);
      SkipsAll(spaces[1..], s);
    }
  }

  lemma SkipsOne(c: char, s: string)
    requires IsSpace(c)
    ensures SkipSpace([c] + s) == SkipSpace(s)
  {
    assert ([c] + s)[1..] == s;
  }

  lemma {:induction false} SkipsAll(spaces: string, s: string)
    requires forall i :: 0 <= i < |spaces| ==> IsSpace(spaces[i])
    ensures SkipSpace(spaces + s) == SkipSpace(s)
  {
    if spaces == "" {
      assert spaces + s == s;
    } else {
      SkipsAll(spaces[1..], s);
      SkipsOne(spaces[0], spaces[1..] + s);
      assert spaces + s == [spaces[0]] + (spaces[1..] + s);
    }
  }

  /** A plus sign does not change a number, and what is not a number is 0 and stays unread. */
  lemma PlusAndNothing(n: nat, tail: string, s: string)
    requires Ends(tail)
    requires s == "" || (!IsSpace(s[0]) && s[0] != '+' && s[0] != '-' && DigitOf(s[0]) >= 10)
    ensures Strtol("+" + NatText(n) + tail) == (Saturated(n), tail)
    ensures Strtol(s) == (0, s)
  {
    hide Unsigned, NatText;
    var p := "+" + NatText(n) + tail;
    UnsignedBack(n, tail);
    assert p[1..] == NatText(n) + tail && SkipSpace(p) == p;
    NoDigits(s);
    assert SkipSpace(s) == s;
  }

  lemma NoDigits(s: string)
    requires s == "" || DigitOf(s[0]) >= 10
    ensures Unsigned(s) == None
  {
  }

  /** A printed list is read back, by a loop that has room for it. */
  lemma {:induction false} ValuesBack(vs: seq<int>, count: nat)
    requires 0 < |vs| <= count && AreLongs(vs)
    ensures Values(ListText(vs), count) == vs
  {
    hide Text, Strtol;
    if |vs| == 1 {
      StrtolBack(vs[0], "");
      assert Text(vs[0]) + "" == Text(vs[0]);
    } else {
      var tail := "," + ListText(vs[1..]);
      StrtolBack(vs[0], tail);
      assert ListText(vs) == Text(vs[0]) + tail;
      ValuesBack(vs[1..], count - 1);
      assert tail[1..] == ListText(vs[1..]);
    }
  }

  /** Only the low 32 bits of a number are stored. */
  lemma Le32Wraps(v: int)
    ensures Le32(v - TWO_32) == Le32(v)
  {
    LowByte(v, 0x100_0000);
    LowByte(v / 0x100, 0x1_0000);
    LowByte(v / 0x1_0000, 0x100);
    LowByte(v / 0x100_0000, 1);
    ShiftBy8(v);
    ShiftBy16(v);
    ShiftBy24(v);
  }

  lemma LowByte(v: int, k: int)
    ensures (v - 0x100 * k) % 0x100 == v % 0x100
  {
    assert v - 0x100 * k == 0x100 * (v / 0x100 - k) + v % 0x100;
  }

  lemma ShiftBy8(v: int)
    ensures (v - TWO_32) / 0x100 == v / 0x100 - 0x100 * 0x1_0000
  {
  }

  lemma ShiftBy16(v: int)
    ensures (v - TWO_32) / 0x1_0000 == v / 0x1_0000 - 0x100 * 0x100
  {
  }

  lemma ShiftBy24(v: int)
    ensures (v - TWO_32) / 0x100_0000 == v / 0x100_0000 - 0x100
  {
  }

  lemma ItemBack(b: seq<Byte>)
    requires IsItemSize(|b|)
    ensures ItemBytes(ItemValue(b), |b|) == b && -0x8000_0000 <= ItemValue(b) <= 0x7FFF_FFFF
  {
    if |b| == 4 {
      hide Le32, FromLe32;
      Le32Injective(b);
      Le32Wraps(FromLe32(b));
    }
  }

  /** Items of one and two bytes are unsigned, those of four bytes are signed; all have the value of their bytes. */
  lemma ItemRange(b: seq<Byte>)
    requires IsItemSize(|b|)
    ensures |b| == 1 ==> 0 <= ItemValue(b) < 0x100
    ensures |b| == 2 ==> 0 <= ItemValue(b) < 0x1_0000
    ensures |b| == 4 ==> -0x8000_0000 <= ItemValue(b) <= 0x7FFF_FFFF && ItemValue(b) % TWO_32 == FromLe32(b)
  {
    if |b| == 4 && FromLe32(b) >= 0x8000_0000 {
      assert ItemValue(b) == FromLe32(b) + -1 * TWO_32;
    }
  }

  /** Of a number that is too large for its item, the low bytes are stored. */
  lemma ItemBytesWrap(v: int, size: nat)
    requires IsItemSize(size)
    ensures size == 1 ==> ItemValue(ItemBytes(v, size)) == v % 0x100
    ensures size == 2 ==> ItemValue(ItemBytes(v, size)) == v % 0x1_0000
    ensures size == 4 ==> FromLe32(ItemBytes(v, size)) == v % TWO_32
  {
    if size == 4 {
      Le32RoundTrip(v);
      assert Le32(v)[..4] == Le32(v);
    } else if size == 2 {
      LowWord(v);
    }
  }

  lemma LowWord(v: int)
    ensures v % 0x100 + 0x100 * (v / 0x100 % 0x100) == v % 0x1_0000
  {
    var q := v / 0x100;
    var low := v % 0x100 + 0x100 * (q % 0x100);
    assert v == 0x1_0000 * (q / 0x100) + low && 0 <= low < 0x1_0000;
  }

  lemma ListBytesPush(vs: seq<int>, v: int, size: nat)
    requires IsItemSize(size)
    ensures ListBytes(vs + [v], size) == ListBytes(vs, size) + ItemBytes(v, size)
  {
    hide ItemBytes, IsItemSize;
    assert (vs + [v])[..|vs|] == vs;
  }

  lemma ItemValuesPush(b: seq<Byte>, size: nat, n: nat)
    requires IsItemSize(size) && size * n + size <= |b|
    ensures size * (n + 1) == size * n + size
    ensures ItemValues(b, size, n + 1) == ItemValues(b, size, n) + [ItemValue(b[size * n..size * n + size])]
  {
    hide ItemValue, IsItemSize;
    assert size * (n + 1) == size * n + size;
  }

  predicate AreLongs(vs: seq<int>) { forall i :: 0 <= i < |vs| ==> -LONG_MAX <= vs[i] <= LONG_MAX }

  /** Storing the printed values of some items gives back their bytes. */
  lemma {:induction false} ItemsBack(b: seq<Byte>, size: nat, count: nat)
    requires IsItemSize(size) && size * count <= |b|
    ensures ListBytes(ItemValues(b, size, count), size) == b[..size * count]
    ensures AreLongs(ItemValues(b, size, count))
  {
    hide *;
    if count == 0 {
      NoItems(b, size);
    } else {
      var n, at := count - 1, size * (count - 1);
      assert at + size == size * count;
      ItemsBack(b, size, n);
      ItemValuesPush(b, size, n);
      ListBytesPush(ItemValues(b, size, n), ItemValue(b[at..at + size]), size);
      ItemBack(b[at..at + size]);
      AreLongsPush(ItemValues(b, size, n), ItemValue(b[at..at + size]));
      assert b[..at] + b[at..at + size] == b[..at + size];
    }
  }

  lemma NoItems(b: seq<Byte>, size: nat)
    requires IsItemSize(size)
    ensures ItemValues(b, size, 0) == [] && ListBytes([], size) == b[..0] && AreLongs([])
  {
  }

  lemma AreLongsPush(vs: seq<int>, v: int)
    requires AreLongs(vs) && -0x8000_0000 <= v <= 0x7FFF_FFFF
    ensures AreLongs(vs + [v])
  {
  }

  /** The bytes of a control after its list has been read from `text`: only the leading items change. */
  function Stored(cur: seq<Byte>, text: string, size: nat, count: nat): (r: seq<Byte>)
    requires IsItemSize(size) && size * count <= |cur|
    ensures |r| == |cur|
  {
    var b := ListBytes(Values(text, count), size);
    Fewer(size, |Values(text, count)|, count);
    b + cur[|b|..]
  }

  lemma Fewer(size: nat, n: nat, count: nat)
    requires n <= count
    ensures size * n <= size * count
  {
    assert size * count == size * n + size * (count - n);
  }

  /**
   The round trip: reading back the printed text of the first `m` items of `data` restores exactly
   these items and leaves the others alone.
   */
  lemma PrintedListRestores(data: seq<Byte>, cur: seq<Byte>, size: nat, m: nat, count: nat)
    requires IsItemSize(size) && 0 < m <= count && size * m <= |data| && size * count <= |cur|
    ensures size * m <= |cur|
    ensures Stored(cur, ListText(ItemValues(data, size, m)), size, count) == data[..size * m] + cur[size * m..]
  {
    Fewer(size, m, count);
    ItemsBack(data, size, m);
    ValuesBack(ItemValues(data, size, m), count);
  }

  /** An empty list still sets the first item, to zero. */
  lemma EmptyListClearsFirst(cur: seq<Byte>, size: nat, count: nat)
    requires IsItemSize(size) && 0 < count && size * count <= |cur|
    ensures size <= |cur| && Stored(cur, "", size, count) == Le32(0)[..size] + cur[size..]
  {
    Fewer(size, 1, count);
    assert Values("", count) == [0];
    assert [0][..0] == [] && ListBytes([0], size) == [] + ItemBytes(0, size);
  }

  /**
   The text of the first `m` items leaves the later ones alone exactly when it is not empty, there are no
   items, or the first is zero already.
   */
  lemma LaterItemsKeptIff(data: seq<Byte>, cur: seq<Byte>, size: nat, m: nat, count: nat)
    requires IsItemSize(size) && m <= count && size * m <= |data| && size * count <= |cur|
    ensures size * m <= |cur| && (count > 0 ==> size <= |cur|)
    ensures Stored(cur, ListText(ItemValues(data, size, m)), size, count)[size * m..] == cur[size * m..]
      <==> m > 0 || count == 0 || cur[..size] == Le32(0)[..size]
  {
    hide Stored, ItemValues, ListText, Le32;
    Fewer(size, m, count);
    var r := Stored(cur, ListText(ItemValues(data, size, m)), size, count);
    if m > 0 {
      PrintedListRestores(data, cur, size, m, count);
    } else {
      NoItems(data, size);
      NoText();
      assert r[0..] == r && cur[0..] == cur;
      if count == 0 {
        NothingStoredAtAll(cur, "", size);
      } else {
        EmptyListClearsFirst(cur, size, count);
        assert r[..size] == Le32(0)[..size] && cur == cur[..size] + cur[size..];
      }
    }
  }

  lemma NothingStoredAtAll(cur: seq<Byte>, text: string, size: nat)
    requires IsItemSize(size)
    ensures Stored(cur, text, size, 0) == cur
  {
    assert Values(text, 0) == [] && ListBytes([], size) == [];
  }

  /** What a printed list looks like. */
  lemma ListLooks()
    ensures ListText([1, -20, 300]) == "1,-20,300"
  {
    assert NatText(1) == "1" && NatText(20) == NatText(2) + "0" && NatText(2) == "2";
    assert NatText(300) == NatText(30) + "0" && NatText(30) == NatText(3) + "0" && NatText(3) == "3";
    hide NatText;
    assert [1, -20, 300][1..] == [-20, 300] && [-20, 300][1..] == [300];
    assert ListText([300]) == "300" && ListText([-20, 300]) == "-20,300";
  }

  // ----- the two loops

  /** PrintVal. */
  method PrintVal(data: array<Byte>, size: nat, count: nat) returns (text: string)
    requires IsItemSize(size) && size * count <= data.Length
    ensures text == ListText(ItemValues(data[..], size, count))
  {
    hide ListText, ItemValue, Text;
    text := "";
    var dp := 0;
    NoText();
    for i := 0 to count
      invariant dp == size * i
      invariant dp <= data.Length && text == ListText(ItemValues(data[..], size, i))
    {
      Fewer(size, i + 1, count);
      assert size * (i + 1) == dp + size;
      var v := ReadItem(data, dp, size);
      ListTextPush(ItemValues(data[..], size, i), v);
      dp := dp + size;
      text := text + (if i == 0 then "" else ",") + Text(v);
    }
  }

  /** The switch in PrintVal. */
  method ReadItem(data: array<Byte>, dp: nat, size: nat) returns (v: int)
    requires IsItemSize(size) && dp + size <= data.Length
    ensures v == ItemValue(data[..][dp..dp + size])
  {
    match size {
      case 1 => v := data[dp];
      case 2 => v := (data[dp] as int) + 0x100 * (data[dp + 1] as int);
      case _ =>
        assert data[dp..dp + 4] == data[..][dp..dp + 4];
        v := FromLe32(data[dp..dp + 4]);
        if v >= 0x8000_0000 {
          v := v - TWO_32;
        }
    }
  }

  lemma NoText()
    ensures ListText([]) == ""
  {
  }

  lemma ListTextCons(v: int, vs: seq<int>)
    ensures ListText([v] + vs) == Text(v) + if vs == [] then "" else "," + ListText(vs)
  {
    hide Text;
    assert vs == ([v] + vs)[1..];
  }

  lemma {:induction false} ListTextPush(vs: seq<int>, v: int)
    ensures ListText(vs + [v]) == ListText(vs) + (if vs == [] then "" else ",") + Text(v)
  {
    hide *;
    ListTextCons(v, []);
    if vs == [] {
      NoText();
      assert [] + [v] == [v] + [];
    } else {
      ListTextPush(vs[1..], v);
      ListTextCons(vs[0], vs[1..]);
      ListTextCons(vs[0], vs[1..] + [v]);
      assert vs == [vs[0]] + vs[1..] && vs + [v] == [vs[0]] + (vs[1..] + [v]);
      if vs[1..] == [] {
        NoText();
      }
    }
  }

  /** `s` with `b` in place of its bytes from `at` on. */
  function Put(s: seq<Byte>, at: nat, b: seq<Byte>): (r: seq<Byte>)
    requires at + |b| <= |s|
    ensures |r| == |s|
  {
    s[..at] + b + s[at + |b|..]
  }

  /** The switch in the loop of SetControls: stores one value at `n`. */
  method WriteItem(cur: array<Byte>, n: nat, size: nat, v: int)
    requires IsItemSize(size) && n + size <= cur.Length
    modifies cur
    ensures cur[..] == Put(old(cur[..]), n, ItemBytes(v, size))
  {
    ghost var b := Le32(v);
    cur[n] := v % 0x100;
    if size >= 2 {
      cur[n + 1] := v / 0x100 % 0x100;
    }
    if size >= 4 {
      cur[n + 2] := v / 0x1_0000 % 0x100;
      cur[n + 3] := v / 0x100_0000 % 0x100;
    }
    assert cur[n..n + size] == b[..size];
    assert cur[..n] == old(cur[..n]) && cur[n + size..] == old(cur[n + size..]);
    assert cur[..] == cur[..n] + cur[n..n + size] + cur[n + size..];
  }

  /** The first items of `b` hold the values `vs`, up to byte `n`; the rest is that of `was`. */
  ghost predicate Begun(b: seq<Byte>, was: seq<Byte>, vs: seq<int>, n: nat, size: nat) {
    IsItemSize(size) && n == Span(size, |vs|) <= |was| && b == ListBytes(vs, size) + was[n..]
  }

  /** The values `vs` are taken from `text`, and those still to come are at the start of `valStr`. */
  ghost predicate Taken(text: string, count: nat, vs: seq<int>, valStr: string) {
    |vs| <= count && vs + Values(valStr, count - |vs|) == Values(text, count)
  }

  /** The loop of SetControls over the items of one control. */
  method SetControl(cur: array<Byte>, text: string, size: nat, count: nat)
    requires IsItemSize(size) && size * count <= cur.Length
    modifies cur
    ensures cur[..] == Stored(old(cur[..]), text, size, count)
  {
    hide *;
    ghost var was, vs: seq<int> := cur[..], [];
    var valStr, n, k := text, 0, 0;
    NothingYet(was, size, text, count);
    while k < count
      invariant k == |vs| <= count && 0 <= n && Begun(cur[..], was, vs, n, size) && Taken(text, count, vs, valStr)
      decreases count - k
    {
      RoomForNext(cur[..], was, vs, n, size, count);
      var (lv, rest) := Strtol(valStr);
      ghost var b := cur[..];
      WriteItem(cur, n, size, lv);
      NextStored(b, vs, was, n, size, lv);
      NextTaken(text, count, vs, valStr);
      vs := vs + [lv];
      n := n + size;
      k := k + 1;
      if rest == "" || rest[0] != ',' {
        StoredIs(cur[..], was, text, size, count, vs, n);
        return;
      }
      valStr := rest[1..];
    }
    AllTaken(text, count, vs, valStr);
    StoredIs(cur[..], was, text, size, count, vs, n);
  }

  lemma NothingYet(was: seq<Byte>, size: nat, text: string, count: nat)
    requires IsItemSize(size)
    ensures Begun(was, was, [], 0, size) && Taken(text, count, [], text)
  {
    assert [] + Values(text, count) == Values(text, count);
  }

  lemma RoomForNext(b: seq<Byte>, was: seq<Byte>, vs: seq<int>, n: nat, size: nat, count: nat)
    requires Begun(b, was, vs, n, size) && |vs| < count && size * count <= |was|
    ensures |b| == |was| && n + size <= |was| && n + size == Span(size, |vs| + 1)
  {
    assert size * (|vs| + 1) == size * |vs| + size;
    Fewer(size, |vs| + 1, count);
  }

  lemma NextStored(b: seq<Byte>, vs: seq<int>, was: seq<Byte>, n: nat, size: nat, v: int)
    requires Begun(b, was, vs, n, size) && n + size <= |b| && n + size == Span(size, |vs| + 1)
    ensures Begun(Put(b, n, ItemBytes(v, size)), was, vs + [v], n + size, size)
  {
    hide ItemBytes, ListBytes, IsItemSize, Span;
    ListBytesPush(vs, v, size);
    assert b[n + size..] == was[n + size..];
  }

  lemma NextTaken(text: string, count: nat, vs: seq<int>, valStr: string)
    requires Taken(text, count, vs, valStr) && |vs| < count
    ensures var (v, rest) := Strtol(valStr);
      if rest == "" || rest[0] != ',' then vs + [v] == Values(text, count) else Taken(text, count, vs + [v], rest[1..])
  {
    hide Strtol;
    var (v, rest) := Strtol(valStr);
    if rest != "" && rest[0] == ',' {
      assert (vs + [v]) + Values(rest[1..], count - |vs| - 1) == vs + ([v] + Values(rest[1..], count - |vs| - 1));
    }
  }

  lemma AllTaken(text: string, count: nat, vs: seq<int>, valStr: string)
    requires Taken(text, count, vs, valStr) && |vs| == count
    ensures vs == Values(text, count)
  {
    assert vs + [] == vs;
  }

  lemma StoredIs(b: seq<Byte>, was: seq<Byte>, text: string, size: nat, count: nat, vs: seq<int>, n: nat)
    requires IsItemSize(size) && size * count <= |was| && vs == Values(text, count) && Begun(b, was, vs, n, size)
    ensures Stored(was, text, size, count) == b
  {
    Fewer(size, |vs|, count);
  }
}
