/** The decimal printer and parser of CFBigNumber. */
module BigNumText {
  import opened BigNum
  import opened Memory

  const NUL: char := '\0'

  // ---------------------------------------------------------------- decimal text

  function Pow10(n: nat): (p: nat)
    ensures 0 < p
  {
    if n == 0 then 1 else 10 * Pow10(n - 1)
  }

  predicate IsDigit(c: char) { '0' <= c <= '9' }

  ghost predicate AllDigits(s: seq<char>) { forall i :: 0 <= i < |s| ==> IsDigit(s[i]) }

  /** The number a string of decimal digits spells, as `atol` reads it. */
  function TextValue(s: seq<char>): nat
    requires forall i :: 0 <= i < |s| ==> IsDigit(s[i])
  {
    if s == [] then 0 else 10 * TextValue(s[..|s| - 1]) + DigitOf(s[|s| - 1])
  }

  function DigitOf(c: char): nat
    requires IsDigit(c)
  {
    c as int - '0' as int
  }

  /** The last `n` decimal digits of `v`: what `%0nu` prints when `v` has no more. */
  function Padded(n: nat, v: nat): (s: seq<char>)
    ensures |s| == n && forall i :: 0 <= i < n ==> IsDigit(s[i])
  {
    if n == 0 then [] else Padded(n - 1, v / 10) + [('0' as int + v % 10) as char]
  }

  lemma {:induction false} PaddedValue(n: nat, v: nat)
    requires v < Pow10(n)
    ensures TextValue(Padded(n, v)) == v
  {
    if 0 < n {
      PaddedValue(n - 1, v / 10);
      assert Padded(n, v)[..n - 1] == Padded(n - 1, v / 10);
    }
  }

  lemma {:induction false} ConcatValue(a: seq<char>, b: seq<char>)
    requires AllDigits(a) && AllDigits(b)
    ensures AllDigits(a + b) && TextValue(a + b) == TextValue(a) * Pow10(|b|) + TextValue(b)
  {
    hide TextValue;
    if b == [] {
      NoText();
      assert a + b == a;
    } else {
      var n := |b| - 1;
      ConcatValue(a, b[..n]);
      LastDigit(b);
      LastDigit(a + b);
      assert (a + b)[..|a + b| - 1] == a + b[..n];
      Tenfold(TextValue(a), Pow10(n), TextValue(b[..n]));
    }
  }

  lemma LastDigit(s: seq<char>)
    requires AllDigits(s) && s != []
    ensures TextValue(s) == 10 * TextValue(s[..|s| - 1]) + DigitOf(s[|s| - 1])
  {
  }

  lemma Tenfold(x: nat, p: nat, y: nat)
    ensures 10 * (x * p + y) == x * (10 * p) + 10 * y
  {
  }

  lemma {:induction false} TextBound(s: seq<char>)
    requires AllDigits(s)
    ensures TextValue(s) < Pow10(|s|)
  {
    if s != [] {
      TextBound(s[..|s| - 1]);
    }
  }

  lemma Pow10Nine()
    ensures Pow10(9) == Limit
  {
  }

  /** All digits of a number, most significant first, nine characters each. */
  function AllNines(d: seq<nat>): (s: seq<char>)
    ensures |s| == 9 * |d| && forall i :: 0 <= i < |s| ==> IsDigit(s[i])
  {
    if d == [] then [] else Padded(9, d[|d| - 1]) + AllNines(d[..|d| - 1])
  }

  lemma {:induction false} WeightIsPow10(n: nat)
    ensures Pow10(9 * n) == Weight(n)
  {
    if 0 < n {
      WeightIsPow10(n - 1);
      Pow10Nine();
      Pow10Sum(9 * (n - 1), 9);
    }
  }

  lemma {:induction false} Pow10Sum(m: nat, n: nat)
    ensures Pow10(m + n) == Pow10(m) * Pow10(n)
  {
    if 0 < n {
      Pow10Sum(m, n - 1);
      assert Pow10(m) * (10 * Pow10(n - 1)) == 10 * (Pow10(m) * Pow10(n - 1));
    }
  }

  /** The printed digits spell the value. */
  lemma {:induction false} AllNinesValue(d: seq<nat>)
    requires InRange(d)
    ensures TextValue(AllNines(d)) == Value(d)
  {
    if d != [] {
      var n := |d| - 1;
      AllNinesValue(d[..n]);
      Pow10Nine();
      PaddedValue(9, d[n]);
      ConcatValue(Padded(9, d[n]), AllNines(d[..n]));
      WeightIsPow10(n);
    }
  }

  /** The text without its leading zeros. */
  function Stripped(s: seq<char>): (r: seq<char>)
    ensures |r| <= |s| && r == s[|s| - |r|..]
    ensures r == [] || r[0] != '0'
    ensures forall i :: 0 <= i < |s| - |r| ==> s[i] == '0'
  {
    if s == [] || s[0] != '0' then s else Stripped(s[1..])
  }

  lemma LeadingZero(s: seq<char>)
    requires AllDigits(s)
    ensures AllDigits(['0'] + s) && TextValue(['0'] + s) == TextValue(s)
  {
    ConcatValue(['0'], s);
    ZeroText();
  }

  lemma NoText()
    ensures TextValue([]) == 0
  {
  }

  lemma ZeroText()
    ensures TextValue(['0']) == 0
  {
  }

  lemma {:induction false} LeadingZeros(s: seq<char>, k: nat)
    requires AllDigits(s) && k <= |s| && forall i :: 0 <= i < k ==> s[i] == '0'
    ensures TextValue(s[k..]) == TextValue(s)
  {
    hide TextValue;
    if k == 0 {
      assert s[0..] == s;
    } else {
      LeadingZeros(s, k - 1);
      LeadingZero(s[k..]);
      assert s[k - 1..] == ['0'] + s[k..];
    }
  }

  lemma StrippedValue(s: seq<char>)
    requires AllDigits(s)
    ensures AllDigits(Stripped(s)) && TextValue(Stripped(s)) == TextValue(s)
    ensures Stripped(s) == [] <==> TextValue(s) == 0
  {
    hide TextValue;
    hide Pow10;
    hide Stripped;
    var r := Stripped(s);
    LeadingZeros(s, |s| - |r|);
    if r == [] {
      NoText();
    } else {
      LeadingDigit(r);
    }
  }

  lemma {:induction false} LeadingDigit(s: seq<char>)
    requires AllDigits(s) && s != [] && s[0] != '0'
    ensures Pow10(|s| - 1) <= TextValue(s)
  {
    if 1 < |s| {
      LeadingDigit(s[..|s| - 1]);
    }
  }

  // ---------------------------------------------------------------- parsing

  function SignOf(text: seq<char>): int {
    if text != [] && text[0] == '-' then -1 else 0
  }

  /** The text after its sign. */
  function Body(text: seq<char>): seq<char> {
    if text != [] && (text[0] == '-' || text[0] == '+') then text[1..] else text
  }

  /** The digits read so far and the text still unread together spell the whole. */
  ghost predicate Partial(w: seq<char>, d: seq<nat>, length: nat, cur: nat)
    requires AllDigits(w)
  {
    && |d| == Digits && cur < Digits && length <= |w| && length + 9 * cur == |w|
    && InRange(d) && (forall i :: cur <= i < Digits ==> d[i] == 0)
    && Value(d[..cur]) + TextValue(w[..length]) * Weight(cur) == TextValue(w)
  }

  lemma ChunkStep(w: seq<char>, d: seq<nat>, length: nat, cur: nat)
    requires AllDigits(w) && Partial(w, d, length, cur) && 9 < length && cur + 1 < Digits
    ensures TextValue(w[length - 9..length]) < Limit
    ensures Partial(w, d[cur := TextValue(w[length - 9..length])], length - 9, cur + 1)
  {
    var chunk := w[length - 9..length];
    var rest := w[..length - 9];
    assert w[..length] == rest + chunk;
    ConcatValue(rest, chunk);
    Pow10Nine();
    TextBound(chunk);
    var d' := d[cur := TextValue(chunk)];
    assert d'[..cur] == d[..cur];
    BigNum.Step(d', cur);
    Spread(TextValue(rest), TextValue(chunk), Weight(cur));
  }

  lemma Spread(x: nat, y: nat, w: nat)
    ensures (x * Limit + y) * w == x * (Limit * w) + y * w
  {
  }

  lemma LastChunk(w: seq<char>, d: seq<nat>, length: nat, cur: nat)
    requires AllDigits(w) && Partial(w, d, length, cur) && length <= 9
    ensures TextValue(w[..length]) < Limit
    ensures InRange(d[cur := TextValue(w[..length])]) && Value(d[cur := TextValue(w[..length])]) == TextValue(w)
  {
    TextBound(w[..length]);
    Pow10Sum(length, 9 - length);
    Pow10Nine();
    Scale(1, Pow10(9 - length), Pow10(length));
    var d' := d[cur := TextValue(w[..length])];
    assert d'[..cur] == d[..cur];
    BigNum.Step(d', cur);
    DropZeros(d', cur + 1);
  }

  lemma PartialStart(w: seq<char>)
    requires AllDigits(w)
    ensures Partial(w, [0, 0, 0, 0, 0], |w|, 0)
  {
    assert w[..|w|] == w && [0, 0, 0, 0, 0][..0] == [];
  }

  /** The loop that reads nine characters at a time from the right. */
  method ReadChunks(r: Number, w: seq<char>)
    requires AllDigits(w) && |w| <= 45 && r.digits == [0, 0, 0, 0, 0]
    modifies r`digits
    ensures |r.digits| == Digits && InRange(r.digits) && Value(r.digits) == TextValue(w)
  {
    hide TextValue;
    hide Value;
    hide Weight;
    PartialStart(w);
    var cur, length := 0, |w|;
    while cur + 1 < Digits && 9 < length
      invariant 0 <= length && 0 <= cur && Partial(w, r.digits, length, cur)
      decreases length
    {
      ChunkStep(w, r.digits, length, cur);
      r.digits := r.digits[cur := TextValue(w[length - 9..length])];
      length := length - 9;
      cur := cur + 1;
    }
    LastChunk(w, r.digits, length, cur);
    r.digits := r.digits[cur := TextValue(w[..length])];
  }

  /**
   Reads an optional sign and decimal digits, of which at most 45 are significant.
   Only a minus sign before zeros gives a number that is not canonical.
   */
  method FromCString(r: Number, text: seq<char>)
    requires AllDigits(Body(text)) && |Stripped(Body(text))| <= 45
    modifies r
    ensures |r.digits| == Digits && InRange(r.digits)
    ensures Value(r.digits) == TextValue(Body(text)) && r.sign == if text != [] && text[0] == '-' then -1 else 0
    ensures r.Canonical() <==> (SignOf(text) < 0 ==> TextValue(Body(text)) != 0)
  {
    hide TextValue;
    hide Value;
    hide Stripped;
    r.digits, r.sign := [0, 0, 0, 0, 0], SignOf(text);
    FiveDigits(r.digits);
    StrippedValue(Body(text));
    var working := SkipZeros(Body(text));
    if |working| != 0 {
      ReadChunks(r, working);
    }
  }

  method SkipZeros(text: seq<char>) returns (working: seq<char>)
    ensures working == Stripped(text)
  {
    var k := 0;
    while k < |text| && text[k] == '0'
      invariant k <= |text| && Stripped(text[k..]) == Stripped(text)
    {
      assert text[k..][1..] == text[k + 1..];
      k := k + 1;
    }
    working := text[k..];
  }

  // ---------------------------------------------------------------- printing

  /** Printing what a text spells, at the length of the text, gives the text back. */
  lemma {:induction false} PaddedOfText(s: seq<char>)
    requires AllDigits(s)
    ensures Padded(|s|, TextValue(s)) == s
  {
    if s != [] {
      var n := |s| - 1;
      PaddedOfText(s[..n]);
      assert TextValue(s) / 10 == TextValue(s[..n]) && TextValue(s) % 10 == DigitOf(s[n]);
      assert s == s[..n] + [s[n]];
    }
  }

  /** The low digits do not depend on how many are printed. */
  lemma {:induction false} PaddedDrop(n: nat, k: nat, v: nat)
    ensures Padded(n + k, v)[k..] == Padded(n, v)
  {
    if 0 < n {
      PaddedDrop(n - 1, k, v / 10);
      assert Padded(n + k, v) == Padded(n - 1 + k, v / 10) + [('0' as int + v % 10) as char];
    }
  }

  /** Digits beyond the value are zeros. */
  lemma {:induction false} PaddedZeros(n: nat, k: nat, v: nat)
    requires v < Pow10(n)
    ensures Padded(n + k, v)[..k] == Filled(k, '0')
  {
    if n == 0 {
      if 0 < k {
        PaddedZeros(0, k - 1, 0);
        assert Padded(k, 0) == Padded(k - 1, 0) + ['0'];
        assert Padded(k - 1, 0)[..k - 1] == Padded(k - 1, 0);
      }
    } else {
      PaddedZeros(n - 1, k, v / 10);
      assert Padded(n + k, v) == Padded(n - 1 + k, v / 10) + [('0' as int + v % 10) as char];
    }
  }

  lemma ValueFits(d: seq<nat>)
    requires |d| == Digits && InRange(d)
    ensures Value(d) < Pow10(45)
  {
    hide Pow10;
    hide Weight;
    ValueBound(d);
    WeightIsPow10(Digits);
  }

  lemma NinesArePadded(d: seq<nat>)
    requires InRange(d)
    ensures AllNines(d) == Padded(9 * |d|, Value(d))
  {
    AllNinesValue(d);
    PaddedOfText(AllNines(d));
  }

  function Prefix(sign: int, leadingPlus: bool): (s: seq<char>)
    ensures |s| <= 1
  {
    if sign < 0 then "-" else if leadingPlus then "+" else ""
  }

  /** The digits of a value without leading zeros, but at least one. */
  ghost function Plain(v: nat): seq<char> {
    if v == 0 then "0" else Stripped(Padded(45, v))
  }

  ghost function Clipped(s: seq<char>, room: nat): seq<char> {
    if |s| <= room then s else s[..room]
  }

  /** In `room` characters: with leading zeros exactly the last digits, otherwise the first of the plain ones. */
  ghost function DigitText(v: nat, leadingZeros: bool, room: nat): seq<char> {
    if leadingZeros then Padded(room, v) else Clipped(Plain(v), room)
  }

  /** The text printed into a buffer with room for `room` characters after the sign. */
  ghost function Printed(v: nat, sign: int, leadingZeros: bool, leadingPlus: bool, room: nat): seq<char> {
    Prefix(sign, leadingPlus) + DigitText(v, leadingZeros, room)
  }

  /** The buffer holds `text` as a C string. */
  ghost predicate Holds(cells: seq<char>, text: seq<char>) {
    |text| < |cells| && cells[..|text|] == text && cells[|text|] == NUL && NUL !in text
  }

  method ToCString(vp: Number, leadingZeros: bool, leadingPlus: bool, buffer: array<char>)
    requires vp.Shape() && InRange(vp.digits) && |Prefix(vp.sign, leadingPlus)| < buffer.Length
    modifies buffer
    ensures Holds(buffer[..], Printed(Value(vp.digits), vp.sign, leadingZeros, leadingPlus,
                                      buffer.Length - |Prefix(vp.sign, leadingPlus)| - 1))
    // the sign
    ensures vp.sign < 0 ==> buffer[0] == '-'
    ensures vp.sign >= 0 && leadingPlus ==> buffer[0] == '+'
    ensures vp.sign >= 0 && !leadingPlus ==> buffer[0] == NUL || IsDigit(buffer[0])
    // with leading zeros the digits fill the buffer, without there are no zeros to drop
    ensures var at := if vp.sign < 0 || leadingPlus then 1 else 0;
            if leadingZeros then
              (forall i :: at <= i < buffer.Length - 1 ==> IsDigit(buffer[i])) && buffer[buffer.Length - 1] == NUL
            else
              at + 1 < buffer.Length ==> IsDigit(buffer[at]) && (buffer[at] == '0' ==> Value(vp.digits) == 0 && buffer[at + 1] == NUL)
  {
    hide Value;
    hide Padded;
    hide AllNines;
    hide Plain;
    hide Pow10;
    hide Weight;
    hide Holds;
    hide DigitText;
    var prefix := Prefix(vp.sign, leadingPlus);
    if prefix != [] {
      buffer[0] := prefix[0];
    }
    assert buffer[..|prefix|] == prefix;
    NinesArePadded(vp.digits);
    ValueFits(vp.digits);
    ghost var v := Value(vp.digits);
    PrintDigits(buffer, |prefix|, AllNines(vp.digits), leadingZeros, v);
    HoldsBoth(buffer[..], prefix, DigitText(v, leadingZeros, buffer.Length - |prefix| - 1));
    DigitTextLooks(v, leadingZeros, buffer.Length - |prefix| - 1);
    PrintedLooks(buffer[..], prefix, DigitText(v, leadingZeros, buffer.Length - |prefix| - 1), v, leadingZeros);
  }

  /** What a printed text looks like. */
  lemma PrintedLooks(cells: seq<char>, prefix: seq<char>, digits: seq<char>, v: nat, leadingZeros: bool)
    requires |prefix| < |cells| && Holds(cells, prefix + digits) && DigitsLook(digits, v, leadingZeros, |cells| - |prefix| - 1)
    ensures prefix != [] ==> cells[0] == prefix[0]
    ensures prefix == [] ==> cells[0] == NUL || IsDigit(cells[0])
    ensures var at := |prefix|;
            if leadingZeros then
              (forall i :: at <= i < |cells| - 1 ==> IsDigit(cells[i])) && cells[|cells| - 1] == NUL
            else
              at + 1 < |cells| ==> IsDigit(cells[at]) && (cells[at] == '0' ==> v == 0 && cells[at + 1] == NUL)
  {
    var text := prefix + digits;
    assert forall i :: 0 <= i < |text| ==> cells[i] == text[i] by {
      assert forall i :: 0 <= i < |text| ==> cells[..|text|][i] == text[i];
    }
    assert forall i :: 0 <= i < |digits| ==> cells[|prefix| + i] == digits[i];
  }

  /** All of the room with leading zeros; without, something if there is room, and a zero only for zero. */
  ghost predicate DigitsLook(digits: seq<char>, v: nat, leadingZeros: bool, room: nat) {
    && AllDigits(digits) && |digits| <= room && (leadingZeros ==> |digits| == room)
    && (!leadingZeros && 0 < room ==> digits != [] && (digits[0] == '0' ==> v == 0 && |digits| == 1))
  }

  lemma DigitTextLooks(v: nat, leadingZeros: bool, room: nat)
    requires v < Pow10(45)
    ensures DigitsLook(DigitText(v, leadingZeros, room), v, leadingZeros, room)
  {
    hide Padded;
    hide Pow10;
    hide Plain;
    PlainDigits(v);
    PlainStarts(v);
  }

  /**
   What the digits are worth when there is too little room: with leading zeros the high
   digits are missing, without the low ones.
   */
  lemma DigitsWorth(v: nat, leadingZeros: bool, room: nat)
    requires v < Pow10(45)
    ensures AllDigits(DigitText(v, leadingZeros, room))
    ensures leadingZeros ==> exists high: nat :: v == high * Pow10(room) + TextValue(DigitText(v, leadingZeros, room))
    ensures !leadingZeros && |Plain(v)| <= room ==> TextValue(DigitText(v, leadingZeros, room)) == v
    ensures !leadingZeros && room < |Plain(v)| ==>
              var (worth, unit) := (TextValue(DigitText(v, leadingZeros, room)), Pow10(|Plain(v)| - room));
              worth * unit <= v < worth * unit + unit
  {
    hide Padded;
    hide Pow10;
    hide Plain;
    hide TextValue;
    PlainDigits(v);
    if leadingZeros {
      PaddedWorth(v, room);
    } else if room < |Plain(v)| {
      var s := Plain(v);
      ConcatValue(s[..room], s[room..]);
      TextBound(s[room..]);
      assert s == s[..room] + s[room..];
    }
  }

  lemma PaddedWorth(v: nat, room: nat)
    requires v < Pow10(45)
    ensures exists high: nat :: v == high * Pow10(room) + TextValue(Padded(room, v))
  {
    hide Padded;
    hide Pow10;
    hide TextValue;
    if room <= 45 {
      var s := Padded(45, v);
      PaddedValue(45, v);
      PaddedDrop(room, 45 - room, v);
      ConcatValue(s[..45 - room], s[45 - room..]);
      assert s == s[..45 - room] + s[45 - room..];
    } else {
      Pow10Grows(45, room);
      PaddedValue(room, v);
      assert v == 0 * Pow10(room) + TextValue(Padded(room, v));
    }
  }

  lemma PlainStarts(v: nat)
    requires v < Pow10(45)
    ensures Plain(v) != [] && (Plain(v)[0] == '0' ==> v == 0 && Plain(v) == "0")
  {
    hide Padded;
    hide Pow10;
    if v != 0 {
      PlainDigits(v);
    }
  }

  /** What follows the sign. */
  method PrintDigits(buffer: array<char>, off: nat, tmp: seq<char>, leadingZeros: bool, ghost v: nat)
    requires off < buffer.Length && |tmp| == 45 && tmp == Padded(45, v) && v < Pow10(45)
    modifies buffer
    ensures buffer[..off] == old(buffer[..off])
    ensures var text := DigitText(v, leadingZeros, buffer.Length - off - 1);
            && |text| < buffer.Length - off && AllDigits(text)
            && buffer[off..off + |text|] == text && buffer[off + |text|] == NUL
  {
    hide Padded;
    hide Plain;
    hide Pow10;
    if leadingZeros {
      PrintZeros(buffer, off, tmp, v);
    } else {
      PlainDigits(v);
      PrintPlain(buffer, off, tmp, v);
    }
  }

  lemma HoldsBoth(cells: seq<char>, prefix: seq<char>, digits: seq<char>)
    requires |prefix| + |digits| < |cells| && cells[..|prefix|] == prefix && NUL !in prefix && AllDigits(digits)
    requires cells[|prefix|..|prefix| + |digits|] == digits && cells[|prefix| + |digits|] == NUL
    ensures Holds(cells, prefix + digits)
  {
  }

  lemma PlainDigits(v: nat)
    requires v < Pow10(45)
    ensures Plain(v) != [] && AllDigits(Plain(v)) && |Plain(v)| <= 45
    ensures TextValue(Plain(v)) == v
  {
    if v != 0 {
      PaddedValue(45, v);
      StrippedValue(Padded(45, v));
    }
  }

  /** The branch with leading zeros: '0's everywhere, then the tail of the digits and the terminator. */
  method PrintZeros(buffer: array<char>, off: nat, tmp: seq<char>, ghost v: nat)
    requires off < buffer.Length && |tmp| == 45 && tmp == Padded(45, v) && v < Pow10(45)
    modifies buffer
    ensures buffer[..off] == old(buffer[..off])
    ensures buffer[off..buffer.Length - 1] == Padded(buffer.Length - off - 1, v) && buffer[buffer.Length - 1] == NUL
  {
    hide Padded;
    hide Written;
    hide Pow10;
    ghost var cells := buffer[..];
    var buflen := buffer.Length - off;
    var text := tmp + [NUL];
    var tocopy := if 46 < buflen then 46 else buflen;
    Memset(buffer, off, buflen, '0');
    CopyTail(buffer, text, tocopy);
    TailPrinted(cells, off, tmp, v, tocopy);
  }

  method CopyTail(buffer: array<char>, text: seq<char>, n: nat)
    requires n <= buffer.Length && n <= |text|
    modifies buffer
    ensures buffer[..] == Written(old(buffer[..]), buffer.Length - n, text[|text| - n..])
  {
    for i := 0 to n
      invariant forall j :: 0 <= j < buffer.Length - n || buffer.Length - n + i <= j < buffer.Length ==> buffer[j] == old(buffer[j])
      invariant forall j :: buffer.Length - n <= j < buffer.Length - n + i ==> buffer[j] == text[j - buffer.Length + |text|]
    {
      buffer[buffer.Length - n + i] := text[|text| - n + i];
    }
  }

  lemma TailPrinted(cells: seq<char>, off: nat, tmp: seq<char>, v: nat, tocopy: nat)
    requires off < |cells| && tmp == Padded(45, v) && v < Pow10(45)
    requires tocopy == if 46 < |cells| - off then 46 else |cells| - off
    ensures var after := Written(Written(cells, off, Filled(|cells| - off, '0')), |cells| - tocopy, (tmp + [NUL])[46 - tocopy..]);
            && after[..off] == cells[..off]
            && after[off..|cells| - 1] == Padded(|cells| - off - 1, v)
            && after[|cells| - 1] == NUL
  {
    hide Padded;
    hide Pow10;
    var room := |cells| - off - 1;
    var after := Written(Written(cells, off, Filled(|cells| - off, '0')), |cells| - tocopy, (tmp + [NUL])[46 - tocopy..]);
    if room <= 45 {
      PaddedDrop(room, 45 - room, v);
      assert (tmp + [NUL])[45 - room..] == tmp[45 - room..] + [NUL];
      assert after[off..|cells| - 1] == tmp[45 - room..];
    } else {
      PaddedDrop(45, room - 45, v);
      PaddedZeros(45, room - 45, v);
      assert Padded(room, v) == Filled(room - 45, '0') + tmp;
      assert after[off..|cells| - 1] == Filled(room - 45, '0') + tmp;
    }
  }

  /** The branch without: skip the zeros, keep at least one, copy what fits and terminate. */
  method PrintPlain(buffer: array<char>, off: nat, tmp: seq<char>, ghost v: nat)
    requires off < buffer.Length && |tmp| == 45 && tmp == Padded(45, v) && v < Pow10(45)
    modifies buffer
    ensures buffer[..off] == old(buffer[..off])
    ensures var text := Clipped(Plain(v), buffer.Length - off - 1);
            buffer[off..off + |text|] == text && buffer[off + |text|] == NUL
  {
    hide Padded;
    hide Stripped;
    hide Pow10;
    hide TextValue;
    var s := SkipZeros(tmp);
    PaddedValue(45, v);
    StrippedValue(tmp);
    if s == [] {
      s := "0";
    }
    assert s == Plain(v);
    hide Plain;
    var room := buffer.Length - off - 1;
    CopyHead(buffer, off, if |s| <= room then s else s[..room]);
  }

  /** `memcpy` and the terminator. */
  method CopyHead(buffer: array<char>, off: nat, s: seq<char>)
    requires off + |s| < buffer.Length
    modifies buffer
    ensures buffer[..off] == old(buffer[..off])
    ensures buffer[off..off + |s|] == s && buffer[off + |s|] == NUL
  {
    for i := 0 to |s|
      invariant forall j :: 0 <= j < off ==> buffer[j] == old(buffer[j])
      invariant forall j :: off <= j < off + i ==> buffer[j] == s[j - off]
    {
      buffer[off + i] := s[i];
    }
    buffer[off + |s|] := NUL;
  }

  // ---------------------------------------------------------------- round trip

  /** Enough room for every significant digit, and for at least one. */
  ghost predicate RoomFor(v: nat, room: nat) {
    0 < room && v < Pow10(room)
  }

  lemma PlainFits(v: nat, room: nat)
    requires v < Pow10(45) && RoomFor(v, room)
    ensures |Plain(v)| <= room
  {
    hide Padded;
    hide Stripped;
    hide TextValue;
    hide Pow10;
    PaddedValue(45, v);
    StrippedShort(Padded(45, v), room);
  }

  /** What was printed with enough room spells the number, sign and all. */
  lemma PrintedSpells(d: seq<nat>, sign: int, leadingZeros: bool, leadingPlus: bool, room: nat)
    requires CanonicalForm(d, sign) && RoomFor(Value(d), room)
    ensures var text := Printed(Value(d), sign, leadingZeros, leadingPlus, room);
            && AllDigits(Body(text)) && |Stripped(Body(text))| <= 45
            && TextValue(Body(text)) == Value(d) && SignOf(text) == sign
  {
    hide TextValue;
    hide Value;
    hide Padded;
    hide Stripped;
    hide Plain;
    hide Pow10;
    hide Weight;
    var v := Value(d);
    var text := Printed(v, sign, leadingZeros, leadingPlus, room);
    ValueFits(d);
    var digits := DigitText(v, leadingZeros, room);
    if leadingZeros {
      PaddedValue(room, v);
    } else {
      PlainDigits(v);
      PlainFits(v, room);
    }
    assert AllDigits(digits) && digits != [] && TextValue(digits) == v;
    assert IsDigit(digits[0]);
    assert Body(text) == digits && SignOf(text) == sign;
    StrippedShort(digits, 45);
  }

  lemma {:induction false} Pow10Grows(m: nat, n: nat)
    requires m <= n
    ensures Pow10(m) <= Pow10(n)
    decreases n - m
  {
    if m < n {
      Pow10Grows(m, n - 1);
    }
  }

  lemma StrippedShort(s: seq<char>, n: nat)
    requires AllDigits(s) && TextValue(s) < Pow10(n)
    ensures |Stripped(s)| <= n
  {
    hide Pow10;
    hide TextValue;
    StrippedValue(s);
    var r := Stripped(s);
    if r != [] {
      LeadingDigit(r);
      if n <= |r| - 1 {
        Pow10Grows(n, |r| - 1);
      }
    }
  }

  /** Digits in range are determined by their value. */
  lemma {:induction false} ValueInjective(a: seq<nat>, b: seq<nat>)
    requires |a| == |b| && InRange(a) && InRange(b) && Value(a) == Value(b)
    ensures a == b
  {
    if a != [] {
      var n := |a| - 1;
      if a[n] == b[n] {
        ValueInjective(a[..n], b[..n]);
        assert a == a[..n] + [a[n]] && b == b[..n] + [b[n]];
      } else if a[n] < b[n] {
        assert a[n + 1..] == b[n + 1..];
        HighestDecides(a, b, n);
      } else {
        assert a[n + 1..] == b[n + 1..];
        HighestDecides(b, a, n);
      }
    }
  }

  /** The characters of a buffer up to the terminator. */
  method ReadBack(buffer: array<char>, ghost text: seq<char>) returns (s: seq<char>)
    requires Holds(buffer[..], text)
    ensures s == text
  {
    var n := 0;
    while buffer[n] != NUL
      invariant n <= |text|
      decreases |text| - n
    {
      assert buffer[..][n] == text[n];
      n := n + 1;
    }
    s := buffer[..n];
  }

  /** Parsing what was printed gives every canonical number back. */
  method PrintThenParse(vp: Number, leadingZeros: bool, leadingPlus: bool, buffer: array<char>) returns (r: Number)
    requires vp.Canonical() && |Prefix(vp.sign, leadingPlus)| < buffer.Length
    requires RoomFor(Value(vp.digits), buffer.Length - |Prefix(vp.sign, leadingPlus)| - 1)
    modifies buffer
    ensures r.Canonical() && r.digits == vp.digits && r.sign == vp.sign
  {
    hide Value;
    hide Printed;
    hide Stripped;
    hide RoomFor;
    ghost var room := buffer.Length - |Prefix(vp.sign, leadingPlus)| - 1;
    ToCString(vp, leadingZeros, leadingPlus, buffer);
    ghost var printed := Printed(Value(vp.digits), vp.sign, leadingZeros, leadingPlus, room);
    var text := ReadBack(buffer, printed);
    PrintedSpells(vp.digits, vp.sign, leadingZeros, leadingPlus, room);
    r := new Number();
    FromCString(r, text);
    ValueInjective(r.digits, vp.digits);
  }
}
