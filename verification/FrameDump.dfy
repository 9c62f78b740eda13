/** The run-length dump of framebuffer rows over the serial console, and its decoder on the host. */
module FrameDump {
  import opened LogLines
  import opened MachineArith
  import opened Results

  datatype Pixel = Pixel(r: Byte, g: Byte, b: Byte)

  // ----- text -----

  function HexDigit(d: int): char
    requires 0 <= d < 16
  {
    "0123456789abcdef"[d]
  }

  predicate IsHex(c: char) {
    '0' <= c <= '9' || 'a' <= c <= 'f'
  }

  predicate IsDigit(c: char) {
    '0' <= c <= '9'
  }

  /** `%02x%02x%02x` */
  function Hex(p: Pixel): (s: string)
    ensures |s| == 6 && forall c | c in s :: IsHex(c)
  {
    [HexDigit(p.r / 16), HexDigit(p.r % 16), HexDigit(p.g / 16), HexDigit(p.g % 16), HexDigit(p.b / 16), HexDigit(p.b % 16)]
  }

  lemma HexDigitInjective(a: int, b: int)
    requires 0 <= a < 16 && 0 <= b < 16 && HexDigit(a) == HexDigit(b)
    ensures a == b
  {
  }

  lemma HexInjective(p: Pixel, q: Pixel)
    requires Hex(p) == Hex(q)
    ensures p == q
  {
    assert forall i | 0 <= i < 6 :: Hex(p)[i] == Hex(q)[i];
    hide HexDigit;
    HexDigitInjective(p.r / 16, q.r / 16);
    HexDigitInjective(p.r % 16, q.r % 16);
    HexDigitInjective(p.g / 16, q.g / 16);
    HexDigitInjective(p.g % 16, q.g % 16);
    HexDigitInjective(p.b / 16, q.b / 16);
    HexDigitInjective(p.b % 16, q.b % 16);
  }

  /** `%d` */
  function Decimal(n: nat): (s: string)
    ensures s != "" && forall c | c in s :: IsDigit(c)
    ensures n >= 1 ==> |s| <= n
  {
    if n < 10 then [HexDigit(n)] else Decimal(n / 10) + [HexDigit(n % 10)]
  }

  function DigitValue(c: char): nat
    requires IsDigit(c)
  {
    c as int - '0' as int
  }

  function ToNat(s: string): nat
    requires forall c | c in s :: IsDigit(c)
  {
    if s == "" then 0
    else
      assert s[|s| - 1] in s;
      10 * ToNat(s[..|s| - 1]) + DigitValue(s[|s| - 1])
  }

  lemma {:induction false} DecimalReadsBack(n: nat)
    ensures ToNat(Decimal(n)) == n
  {
    if n < 10 {
      assert Decimal(n)[..0] == "";
    } else {
      DecimalReadsBack(n / 10);
      var s := Decimal(n);
      assert s[..|s| - 1] == Decimal(n / 10) && s[|s| - 1] == HexDigit(n % 10);
    }
  }

  function Repeat(s: string, n: nat): string {
    if n == 0 then "" else s + Repeat(s, n - 1)
  }

  // ----- encoding -----

  /** How many pixels from the start are equal. */
  function RunOf(ps: seq<Pixel>): (n: nat)
    requires ps != []
    ensures 1 <= n <= |ps|
    ensures forall i | 0 <= i < n :: ps[i] == ps[0]
    ensures n < |ps| ==> ps[n] != ps[0]
  {
    if |ps| == 1 || ps[1] != ps[0] then 1
    else
      var rest := RunOf(ps[1..]);
      assert forall i | 1 <= i < rest + 1 :: ps[i] == ps[1..][i - 1];
      1 + rest
  }

  function Token(p: Pixel, run: nat): string {
    Hex(p) + if run > 1 then "*" + Decimal(run) + "." else ""
  }

  function Encode(ps: seq<Pixel>): string
    decreases |ps|
  {
    if ps == [] then "" else Token(ps[0], RunOf(ps)) + Encode(ps[RunOf(ps)..])
  }

  /** The plain form: six characters for every pixel. */
  function HexOf(ps: seq<Pixel>): (s: string)
    ensures |s| == 6 * |ps|
  {
    if ps == [] then "" else Hex(ps[0]) + HexOf(ps[1..])
  }

  /** The pixels that the tokens of a row stand for. */
  function Colours(ps: seq<Pixel>): seq<Pixel>
    decreases |ps|
  {
    if ps == [] then [] else [ps[0]] + Colours(ps[RunOf(ps)..])
  }

  /** Runs are as long as they can be: neighbouring tokens differ in colour. */
  lemma {:induction false} NeighboursDiffer(ps: seq<Pixel>, i: nat)
    requires i + 1 < |Colours(ps)|
    ensures Colours(ps)[i] != Colours(ps)[i + 1]
    decreases |ps|
  {
    var rest := ps[RunOf(ps)..];
    if i == 0 {
      assert rest != [];
    } else {
      NeighboursDiffer(rest, i - 1);
    }
  }

  lemma {:induction false} NeverLonger(ps: seq<Pixel>)
    ensures |Encode(ps)| <= 6 * |ps|
    decreases |ps|
  {
    if ps != [] { NeverLonger(ps[RunOf(ps)..]); }
  }

  predicate IsRowCharacter(c: char) {
    IsHex(c) || c == '*' || c == '.'
  }

  /** Only characters that the decoder's line pattern accepts; at least one unless the row is empty. */
  lemma {:induction false} EncodeAlphabet(ps: seq<Pixel>)
    ensures forall c | c in Encode(ps) :: IsRowCharacter(c)
    ensures ps != [] ==> Encode(ps) != "" && IsHex(Encode(ps)[0])
    decreases |ps|
  {
    if ps != [] {
      EncodeAlphabet(ps[RunOf(ps)..]);
      assert Token(ps[0], RunOf(ps))[0] == Hex(ps[0])[0];
    }
  }

  // ----- decoding -----

  function Digits(s: string): (d: string)
    ensures d <= s && (forall c | c in d :: IsDigit(c)) && (|d| < |s| ==> !IsDigit(s[|d|]))
  {
    if s == "" || !IsDigit(s[0]) then "" else [s[0]] + Digits(s[1..])
  }

  /** `(?:\*(\d+)\.)?`: the repetition, once if there is none, and how much text it takes. */
  function Repetition(s: string): (r: (nat, nat))
    ensures r.1 <= |s|
  {
    if s == "" || s[0] != '*' then (1, 0) else CountAfterStar(s[1..])
  }

  function CountAfterStar(s: string): (r: (nat, nat))
    ensures r.1 <= |s| + 1
  {
    var d := Digits(s);
    if d == "" || d == s || s[|d|] != '.' then (1, 0) else (ToNat(d), |d| + 2)
  }

  predicate HexAt(s: string, i: nat) {
    i + 6 <= |s| && forall k | i <= k < i + 6 :: IsHex(s[k])
  }

  /** Every match of `([0-9a-f]{6})(?:\*(\d+)\.)?` from left to right; text that does not match is skipped. */
  function Expanded(s: string): string
    decreases |s|
  {
    if s == "" then ""
    else if !HexAt(s, 0) then Expanded(s[1..])
    else
      var r := Repetition(s[6..]);
      Repeat(s[..6], r.0) + Expanded(s[6 + r.1..])
  }

  method Expand(row: string) returns (out: string)
    ensures out == Expanded(row)
  {
    hide Expanded, Repetition, Repeat, IsHex;
    out := "";
    var i := 0;
    assert row[0..] == row;
    ExpandedOfNothing();
    while i < |row|
      invariant 0 <= i <= |row|
      invariant Expanded(row) == out + Expanded(row[i..])
    {
      ExpandedAt(row, i);
      if HexAt(row, i) {
        var r := Repetition(row[i + 6..]);
        out := out + Repeat(row[i..i + 6], r.0);
        i := i + 6 + r.1;
      } else {
        i := i + 1;
      }
    }
    assert row[i..] == "";
  }

  lemma ExpandedOfNothing()
    ensures Expanded("") == ""
  {
  }

  lemma ExpandedAt(row: string, i: nat)
    requires i < |row|
    ensures Expanded(row[i..]) ==
            if !HexAt(row, i) then Expanded(row[i + 1..])
            else
              var r := Repetition(row[i + 6..]);
              Repeat(row[i..i + 6], r.0) + Expanded(row[i + 6 + r.1..])
  {
    hide Repetition, Repeat, IsHex;
    var s := row[i..];
    assert HexAt(s, 0) <==> HexAt(row, i) by {
      assert forall k | 0 <= k < |s| :: s[k] == row[i + k];
      if HexAt(s, 0) { assert forall k | i <= k < i + 6 :: row[k] == s[k - i]; }
    }
    assert s[1..] == row[i + 1..];
    if HexAt(row, i) {
      assert s[6..] == row[i + 6..] && s[..6] == row[i..i + 6];
      var r := Repetition(row[i + 6..]);
      assert s[6 + r.1..] == row[i + 6 + r.1..];
    }
  }

  lemma {:induction false} DigitsOf(d: string, rest: string)
    requires (forall c | c in d :: IsDigit(c)) && (rest == "" || !IsDigit(rest[0]))
    ensures Digits(d + rest) == d
  {
    if d == "" {
      assert d + rest == rest;
    } else {
      assert (d + rest)[1..] == d[1..] + rest;
      DigitsOf(d[1..], rest);
    }
  }

  lemma CountOfDigits(d: string, rest: string)
    requires d != "" && (forall c | c in d :: IsDigit(c)) && rest != "" && rest[0] == '.'
    ensures CountAfterStar(d + rest) == (ToNat(d), |d| + 2)
  {
    hide ToNat, Digits;
    assert !IsDigit(rest[0]);
    DigitsOf(d, rest);
    assert (d + rest)[|d|] == '.';
  }

  lemma RepetitionOfToken(run: nat, rest: string)
    requires run >= 1 && (rest == "" || IsHex(rest[0]))
    ensures var suffix := if run > 1 then "*" + Decimal(run) + "." else "";
            Repetition(suffix + rest) == (run, |suffix|)
  {
    hide Decimal, CountAfterStar, ToNat;
    if run > 1 {
      DecimalReadsBack(run);
      CountOfDigits(Decimal(run), "." + rest);
      var s := "*" + Decimal(run) + "." + rest;
      assert s[0] == '*' && s[1..] == Decimal(run) + ("." + rest);
    } else {
      assert "" + rest == rest;
    }
  }

  lemma ExpandToken(p: Pixel, run: nat, rest: string)
    requires run >= 1 && (rest == "" || IsHex(rest[0]))
    ensures Expanded(Token(p, run) + rest) == Repeat(Hex(p), run) + Expanded(rest)
  {
    hide Hex, Decimal, Repetition, IsHex, Repeat;
    var suffix := if run > 1 then "*" + Decimal(run) + "." else "";
    var s := Token(p, run) + rest;
    assert s == Hex(p) + (suffix + rest);
    assert s[..6] == Hex(p) && s[6..] == suffix + rest && s[6 + |suffix|..] == rest;
    assert HexAt(s, 0) by { assert forall k | 0 <= k < 6 :: s[k] == Hex(p)[k]; }
    RepetitionOfToken(run, rest);
  }

  lemma {:induction false} HexOfRun(ps: seq<Pixel>, n: nat)
    requires n <= |ps| && forall i | 0 <= i < n :: ps[i] == ps[0]
    ensures HexOf(ps) == (if n == 0 then "" else Repeat(Hex(ps[0]), n)) + HexOf(ps[n..])
  {
    hide Hex;
    if n > 1 {
      HexOfRun(ps[1..], n - 1);
      assert ps[1..][n - 1..] == ps[n..];
    } else if n == 1 {
      assert Repeat(Hex(ps[0]), 1) == Hex(ps[0]) + "";
    }
  }

  /** Round trip: decoding the text of a row gives back the RGB hex of each of its pixels. */
  lemma {:induction false} RoundTrip(ps: seq<Pixel>)
    ensures Expanded(Encode(ps)) == HexOf(ps)
    decreases |ps|
  {
    if ps != [] {
      var n := RunOf(ps);
      RoundTrip(ps[n..]);
      EncodeAlphabet(ps[n..]);
      HexOfRun(ps, n);
      hide *;
      EncodeUnfold(ps);
      ExpandToken(ps[0], n, Encode(ps[n..]));
    }
  }

  lemma EncodeUnfold(ps: seq<Pixel>)
    requires ps != []
    ensures Encode(ps) == Token(ps[0], RunOf(ps)) + Encode(ps[RunOf(ps)..])
  {
  }

  lemma {:induction false} HexOfInjective(a: seq<Pixel>, b: seq<Pixel>)
    requires HexOf(a) == HexOf(b)
    ensures a == b
  {
    hide Hex;
    assert |a| == |b|;
    if a != [] {
      assert HexOf(a)[..6] == Hex(a[0]) && HexOf(a)[6..] == HexOf(a[1..]);
      assert HexOf(b)[..6] == Hex(b[0]) && HexOf(b)[6..] == HexOf(b[1..]);
      HexInjective(a[0], b[0]);
      HexOfInjective(a[1..], b[1..]);
      assert a == [a[0]] + a[1..] && b == [b[0]] + b[1..];
    }
  }

  /** Two rows have the same text only if they are the same picture. */
  lemma EncodeInjective(a: seq<Pixel>, b: seq<Pixel>)
    requires Encode(a) == Encode(b)
    ensures a == b
  {
    hide *;
    RoundTrip(a);
    RoundTrip(b);
    HexOfInjective(a, b);
  }

  // ----- the printer on the target -----

  /** Where pixel `x` of a row starts, when every `step`-th pixel is taken. */
  function Offset(x: nat, step: nat): nat {
    x * step * 4
  }

  /** The row reaches far enough for `n` pixels. */
  predicate Covers(px: seq<Byte>, n: int, step: nat) {
    forall x | 0 <= x < n :: Offset(x, step) + 3 <= |px|
  }

  /** XRGB8888, the low byte first. */
  function PixelAt(px: seq<Byte>, o: nat): Pixel
    requires o + 3 <= |px|
  {
    Pixel(px[o + 2], px[o + 1], px[o])
  }

  function PixelsOf(px: seq<Byte>, n: int, step: nat): (ps: seq<Pixel>)
    requires Covers(px, n, step)
    ensures |ps| == if n > 0 then n else 0
    ensures forall x | 0 <= x < |ps| :: ps[x] == PixelAt(px, Offset(x, step))
  {
    seq(if n > 0 then n else 0, x requires 0 <= x < n => PixelAt(px, Offset(x, step)))
  }

  /** The text of a C string. */
  function UpToNul(s: seq<char>): string {
    if s == [] || s[0] == '\0' then "" else [s[0]] + UpToNul(s[1..])
  }

  lemma {:induction false} UpToNulOf(text: string, rest: seq<char>)
    requires '\0' !in text && rest != [] && rest[0] == '\0'
    ensures UpToNul(text + rest) == text
  {
    if text == "" {
      assert text + rest == rest;
    } else {
      assert (text + rest)[1..] == text[1..] + rest;
      UpToNulOf(text[1..], rest);
    }
  }

  lemma TokenFits(p: Pixel, run: nat)
    requires run >= 1
    ensures |Token(p, run)| <= 6 * run
  {
  }

  lemma {:induction false} RunIsUnique(ps: seq<Pixel>, n: nat)
    requires 1 <= n <= |ps|
    requires forall i | 0 <= i < n :: ps[i] == ps[0]
    requires n < |ps| ==> ps[n] != ps[0]
    ensures RunOf(ps) == n
  {
    var m := RunOf(ps);
    assert m < |ps| ==> ps[m] != ps[0];
    assert n < |ps| ==> ps[n] != ps[0];
  }

  /** No row with a pixel has been printed. */
  predicate Blank(rows: seq<seq<Pixel>>) {
    forall r | r in rows :: r == []
  }

  /** The text that printing `rows` leaves in the buffer. */
  function Left(rows: seq<seq<Pixel>>): string {
    if rows == [] then ""
    else if rows[|rows| - 1] == [] then Left(rows[..|rows| - 1])
    else Encode(rows[|rows| - 1])
  }

  lemma LeftOfMore(rows: seq<seq<Pixel>>, ps: seq<Pixel>)
    ensures Left(rows + [ps]) == if ps == [] then Left(rows) else Encode(ps)
  {
    hide Encode;
    assert (rows + [ps])[..|rows|] == rows;
  }

  /** It is the last row that had pixels. */
  lemma {:induction false} LeftIsLast(rows: seq<seq<Pixel>>, j: nat)
    requires j < |rows| && rows[j] != [] && forall k | j < k < |rows| :: rows[k] == []
    ensures Left(rows) == Encode(rows[j])
  {
    hide Encode;
    if j < |rows| - 1 { LeftIsLast(rows[..|rows| - 1], j); }
  }

  lemma {:induction false} LeftDecodes(rows: seq<seq<Pixel>>)
    ensures Blank(rows) ==> Left(rows) == ""
    ensures Expanded(Left(rows)) == "" <==> Blank(rows)
  {
    hide Encode, Expanded;
    ExpandedOfNothing();
    if rows != [] {
      var init, last := rows[..|rows| - 1], rows[|rows| - 1];
      assert rows == init + [last];
      LeftDecodes(init);
      if last == [] {
        assert forall r :: r in rows <==> r in init || r == last;
      } else {
        StaleTextDecodes(last);
        assert last in rows;
      }
    }
  }

  /** A row with pixels never leaves a text that decodes to nothing. */
  lemma StaleTextDecodes(ps: seq<Pixel>)
    ensures Expanded(Encode(ps)) == "" <==> ps == []
  {
    hide Encode, Expanded;
    RoundTrip(ps);
  }

  /**
   What is printed for a row reads back as the row exactly when the row has pixels, or no row before
   it had any: for an empty row the text left in the buffer is printed.
   */
  lemma RowReadsBackExactly(printed: seq<seq<Pixel>>, ps: seq<Pixel>)
    ensures Expanded(Left(printed + [ps])) == HexOf(ps) <==> ps != [] || Blank(printed)
  {
    hide Encode, Expanded, Left;
    LeftOfMore(printed, ps);
    LeftDecodes(printed);
    RoundTrip(ps);
  }

  class RowPrinter {
    /** `static char row[256 * 12 + 1]`, zero at the start. */
    const row: array<char>
    /** The rows printed so far. */
    ghost var printed: seq<seq<Pixel>>

    ghost predicate Valid()
      reads this, row
    {
      row.Length == 3073 && Text() == Left(printed)
    }

    /** What `%s` prints of it. */
    ghost function Text(): string
      reads row
    {
      UpToNul(row[..])
    }

    constructor ()
      ensures Valid() && fresh(row) && printed == []
    {
      row := new char[3073](_ => '\0');
      printed := [];
    }

    /** snprintf(row + o, sizeof(row) - o, ...) of a text: what does not fit is cut off. */
    method Snprintf(o: nat, text: string) returns (length: nat)
      requires row.Length == 3073 && o < row.Length
      modifies row
      ensures length == |text|
      ensures var w := if |text| < row.Length - o then |text| else row.Length - o - 1;
              row[..] == old(row[..o]) + text[..w] + ['\0'] + old(row[o + w + 1..])
    {
      length := |text|;
      var w := if |text| < row.Length - o then |text| else row.Length - o - 1;
      ghost var was := row[..];
      for i := 0 to w
        invariant forall k | 0 <= k < row.Length :: row[k] == if o <= k < o + i then text[k - o] else was[k]
      {
        row[o + i] := text[i];
      }
      row[o + w] := '\0';
      assert row[..] == was[..o] + text[..w] + ['\0'] + was[o + w + 1..];
    }

    /** Appending in the buffer while it fits. */
    method Append(o: nat, text: string) returns (end: nat)
      requires row.Length == 3073 && o + |text| < row.Length
      modifies row
      ensures end == o + |text| && row[..end] == old(row[..o]) + text && row[end] == '\0'
    {
      var length := Snprintf(o, text);
      end := o + length;
      ghost var now := old(row[..o]) + text + ['\0'] + old(row[o + |text| + 1..]);
      assert text[..|text|] == text;
      assert row[..] == now;
      assert row[..end] == row[..][..end] == now[..end] == old(row[..o]) + text;
      assert row[end] == now[end];
    }

    method Put(o: nat, p: Pixel, run: nat) returns (end: nat)
      requires row.Length == 3073 && run >= 1 && o + 6 * run < row.Length
      modifies row
      ensures o <= end <= o + 6 * run && row[..end] == old(row[..o]) + Token(p, run) && row[end] == '\0'
    {
      hide Hex, Decimal, Token;
      TokenFits(p, run);
      TokenUnfold(p, run);
      end := Append(o, Hex(p));
      if run > 1 {
        end := Append(end, "*" + Decimal(run) + ".");
      }
    }

    /**
     One row. The text is the encoding of its pixels, whole, for up to 512 of them; but with no
     pixel at all the text of the row before is printed again.
     */
    method PrintRow(px: seq<Byte>, n: int, step: nat) returns (text: string)
      requires Valid() && n <= 512 && Covers(px, n, step)
      modifies row, `printed
      ensures Valid() && printed == old(printed) + [PixelsOf(px, n, step)]
      ensures text == Text()
      ensures text == if n > 0 then Encode(PixelsOf(px, n, step)) else old(Text())
    {
      hide Encode, Left, UpToNul;
      text := Render(px, n, step);
      LeftOfMore(printed, PixelsOf(px, n, step));
      printed := printed + [PixelsOf(px, n, step)];
    }

    /** The loop over the runs, and what `%s` then prints. */
    method Render(px: seq<Byte>, n: int, step: nat) returns (text: string)
      requires row.Length == 3073 && n <= 512 && Covers(px, n, step)
      modifies row
      ensures text == Text()
      ensures text == if n > 0 then Encode(PixelsOf(px, n, step)) else old(Text())
    {
      hide Encode, Token, Offset, UpToNul;
      ghost var ps := PixelsOf(px, n, step);
      var o, x := 0, 0;
      assert ps[0..] == ps;
      while x < n
        invariant 0 <= x <= |ps| && o <= 6 * x < row.Length
        invariant x == 0 ==> row[..] == old(row[..])
        invariant x > 0 ==> row[o] == '\0'
        invariant Encode(ps) == row[..o] + Encode(ps[x..])
      {
        var p := PixelAt(px, Offset(x, step));
        var run := RunLength(px, n, step, x);
        EncodeAhead(ps, x);
        ghost var before := row[..o];
        o := Put(o, p, run);
        Regroup(before, Token(p, run), Encode(ps[x + run..]));
        x := x + run;
      }
      text := UpToNul(row[..]);
      if n > 0 {
        assert ps[x..] == [];
        EncodeUnfoldEmpty();
        assert row[..][..o] == row[..o] == Encode(ps);
        TextOfRow(row[..], o, ps);
      }
    }

    method DumpCropRow(fb: seq<Byte>, width: nat, height: nat, k: Rectangle, i: nat) returns (text: string)
      requires Valid() && |fb| == width * height * 4
      requires k.x >= 0 && k.y >= 0 && k.w <= 256 && k.x + k.w <= width && i < k.h && k.y + k.h <= height
      modifies row, `printed
      ensures Valid() && printed == old(printed) + [CropRow(fb, width, height, k, i)] && text == Left(printed)
    {
      hide Encode, Left;
      var line: seq<Byte> := [];
      if k.w > 0 {
        RegionIsCovered(fb, width, height, k.x, k.y + i, k.w, 1);
        line := fb[RowStart(width, k.x, k.y + i)..];
      }
      text := PrintRow(line, k.w, 1);
    }

    /**
     A full-resolution crop: one row of text for each row of the clamped rectangle. They read back as
     the region on screen exactly when it has columns, or no row with pixels was printed before.
     */
    method DumpCrop(fb: seq<Byte>, width: nat, height: nat, c: Rectangle) returns (rows: seq<string>)
      requires Valid() && |fb| == width * height * 4
      modifies row, `printed
      ensures Valid()
      ensures var pictures := CropRows(fb, width, height, Clamped(c, width, height));
              && printed == old(printed) + pictures && |rows| == |pictures|
              && forall i | 0 <= i < |rows| ::
                   && rows[i] == Left(old(printed) + pictures[..i + 1])
                   && (Expanded(rows[i]) == HexOf(pictures[i]) <==> Clamped(c, width, height).w > 0 || Blank(old(printed)))
    {
      hide Encode, CropRow, Left, Expanded, HexOf, Blank;
      var k := Clamped(c, width, height);
      ghost var pictures := CropRows(fb, width, height, k);
      rows := [];
      assert pictures[..0] == [] && old(printed) + [] == old(printed);
      while |rows| < k.h
        invariant |rows| <= |pictures| && Valid()
        invariant printed == old(printed) + pictures[..|rows|]
        invariant forall i | 0 <= i < |rows| :: rows[i] == Left(old(printed) + pictures[..i + 1])
      {
        var text := DumpCropRow(fb, width, height, k, |rows|);
        assert pictures[..|rows| + 1] == pictures[..|rows|] + [pictures[|rows|]];
        assert printed == old(printed) + pictures[..|rows| + 1];
        rows := rows + [text];
      }
      assert pictures[..|rows|] == pictures;
      forall i | 0 <= i < |rows|
        ensures Expanded(rows[i]) == HexOf(pictures[i]) <==> k.w > 0 || Blank(old(printed))
      {
        CropReadsBackExactly(fb, width, height, k, old(printed), i);
      }
    }

    /** The 128x75 thumbnail: every eighth pixel of every eighth row. */
    method DumpThumbnail(fb: seq<Byte>, width: nat, height: nat) returns (rows: seq<string>)
      requires Valid() && |fb| == width * height * 4
      requires width > 127 * 8 && height > 74 * 8
      modifies row, `printed
      ensures Valid() && |rows| == 75 && |printed| == |old(printed)| + 75
      ensures forall y | 0 <= y < 75 :: rows[y] == Encode(Region(fb, width, height, 0, y * 8, 128, 8))
    {
      hide Encode, Region, Left;
      rows := [];
      while |rows| < 75
        invariant |rows| <= 75 && Valid() && |printed| == |old(printed)| + |rows|
        invariant forall y | 0 <= y < |rows| :: rows[y] == Encode(Region(fb, width, height, 0, y * 8, 128, 8))
      {
        RegionIsCovered(fb, width, height, 0, |rows| * 8, 128, 8);
        var text := PrintRow(fb[RowStart(width, 0, |rows| * 8)..], 128, 8);
        rows := rows + [text];
      }
    }
  }

  datatype Rectangle = Rectangle(x: int, y: int, w: int, h: int)

  /** The part of the rectangle on screen, at most 256 pixels wide; empty ones may have a negative size. */
  function Clamped(c: Rectangle, width: nat, height: nat): (k: Rectangle)
    ensures k.x >= 0 && k.y >= 0 && k.w <= 256 && k.x + k.w <= width && k.y + k.h <= height
    ensures k.w > 0 <==> c.w > 0 && k.x < width
  {
    var w := if c.w > 256 then 256 else c.w;
    var x := if c.x < 0 then 0 else c.x;
    var y := if c.y < 0 then 0 else c.y;
    Rectangle(x, y, if x + w > width then width - x else w, if y + c.h > height then height - y else c.h)
  }

  /** It is all of that part: the columns and rows of the screen among the first 256 columns and all rows asked for. */
  lemma ClampedExactly(c: Rectangle, width: nat, height: nat, x: int, y: int)
    ensures var k := Clamped(c, width, height);
            && k.x == Start(c.x) && k.y == Start(c.y)
            && (k.x <= x < k.x + k.w <==> x < width && Start(c.x) <= x && x - Start(c.x) < 256 && x - Start(c.x) < c.w)
            && (k.y <= y < k.y + k.h <==> y < height && Start(c.y) <= y && y - Start(c.y) < c.h)
  {
  }

  /** The first column, or row, for one that is asked for; one left of or above the screen moves in. */
  function Start(c: int): nat {
    if c < 0 then 0 else c
  }

  function RowStart(width: nat, x: nat, y: nat): nat {
    y * width * 4 + x * 4
  }

  /** Every `step`-th of the pixels of screen row `y` from column `x` on. */
  function Region(fb: seq<Byte>, width: nat, height: nat, x: nat, y: nat, n: nat, step: nat): (ps: seq<Pixel>)
    requires |fb| == width * height * 4
    requires y < height && n >= 1 && x + (n - 1) * step < width
    ensures |ps| == n
  {
    seq(n, i requires 0 <= i < n =>
      (OffsetInside(width, height, x, y, n, step, i);
       PixelAt(fb, (y * width + x + i * step) * 4)))
  }

  /** A row of a crop, as it is on screen; without columns it is empty. */
  function CropRow(fb: seq<Byte>, width: nat, height: nat, k: Rectangle, i: nat): (ps: seq<Pixel>)
    requires |fb| == width * height * 4
    requires k.x >= 0 && k.y >= 0 && k.x + k.w <= width && i < k.h && k.y + k.h <= height
    ensures |ps| == if k.w > 0 then k.w else 0
  {
    if k.w > 0 then Region(fb, width, height, k.x, k.y + i, k.w, 1) else []
  }

  function CropRows(fb: seq<Byte>, width: nat, height: nat, k: Rectangle): (rows: seq<seq<Pixel>>)
    requires |fb| == width * height * 4
    requires k.x >= 0 && k.y >= 0 && k.x + k.w <= width && k.y + k.h <= height
    ensures |rows| == if k.h > 0 then k.h else 0
    ensures forall i | 0 <= i < |rows| :: rows[i] == CropRow(fb, width, height, k, i)
  {
    seq(if k.h > 0 then k.h else 0, i requires 0 <= i < k.h => CropRow(fb, width, height, k, i))
  }

  lemma CropReadsBackExactly(fb: seq<Byte>, width: nat, height: nat, k: Rectangle, printed: seq<seq<Pixel>>, i: nat)
    requires |fb| == width * height * 4
    requires k.x >= 0 && k.y >= 0 && k.x + k.w <= width && i < k.h && k.y + k.h <= height
    ensures var pictures := CropRows(fb, width, height, k);
            Expanded(Left(printed + pictures[..i + 1])) == HexOf(pictures[i]) <==> k.w > 0 || Blank(printed)
  {
    hide Left, Expanded, HexOf, CropRow;
    var pictures := CropRows(fb, width, height, k);
    var before := printed + pictures[..i];
    assert printed + pictures[..i + 1] == before + [pictures[i]];
    RowReadsBackExactly(before, pictures[i]);
    if k.w <= 0 {
      assert forall r | r in pictures[..i] :: r == [];
      assert forall r :: r in before <==> r in printed || r in pictures[..i];
      assert pictures[i] == [];
    }
  }

  lemma OffsetInside(width: nat, height: nat, x: nat, y: nat, n: nat, step: nat, i: nat)
    requires y < height && i < n && x + (n - 1) * step < width
    ensures (y * width + x + i * step) * 4 + 4 <= width * height * 4
  {
    MulMonotone(i, n - 1, step);
    MulMonotone(y + 1, height, width);
    MulSucc(y, width);
    assert height * width == width * height;
  }

  /** The slice of the framebuffer that a row is printed from. */
  lemma RegionIsCovered(fb: seq<Byte>, width: nat, height: nat, x: nat, y: nat, n: nat, step: nat)
    requires |fb| == width * height * 4
    requires y < height && n >= 1 && x + (n - 1) * step < width
    ensures RowStart(width, x, y) <= |fb|
    ensures var line := fb[RowStart(width, x, y)..];
            Covers(line, n, step) && PixelsOf(line, n, step) == Region(fb, width, height, x, y, n, step)
  {
    OffsetInside(width, height, x, y, n, step, 0);
    var line := fb[RowStart(width, x, y)..];
    forall i | 0 <= i < n
      ensures Offset(i, step) + 3 <= |line|
      ensures RowStart(width, x, y) + Offset(i, step) == (y * width + x + i * step) * 4
    {
      OffsetInside(width, height, x, y, n, step, i);
    }
    forall i | 0 <= i < n
      ensures PixelsOf(line, n, step)[i] == Region(fb, width, height, x, y, n, step)[i]
    {
    }
  }

  /** The inner loop: how many pixels from `x` on look the same. */
  method RunLength(px: seq<Byte>, n: int, step: nat, x: nat) returns (run: nat)
    requires x < n && Covers(px, n, step)
    ensures run == RunOf(PixelsOf(px, n, step)[x..])
  {
    ghost var ps := PixelsOf(px, n, step);
    ghost var rest := ps[x..];
    var p := PixelAt(px, Offset(x, step));
    hide Offset;
    run := 1;
    while x + run < n && PixelAt(px, Offset(x + run, step)) == p
      invariant 1 <= run <= n - x
      invariant forall i | 0 <= i < run :: rest[i] == p
    {
      assert rest[run] == ps[x + run];
      run := run + 1;
    }
    assert run < |rest| ==> rest[run] == ps[x + run];
    RunIsUnique(rest, run);
  }

  lemma EncodeAhead(ps: seq<Pixel>, x: nat)
    requires x < |ps|
    ensures x + RunOf(ps[x..]) <= |ps|
    ensures Encode(ps[x..]) == Token(ps[x], RunOf(ps[x..])) + Encode(ps[x + RunOf(ps[x..])..])
  {
    EncodeUnfold(ps[x..]);
    assert ps[x..][RunOf(ps[x..])..] == ps[x + RunOf(ps[x..])..];
  }

  lemma Regroup(a: string, b: string, c: string)
    ensures a + (b + c) == (a + b) + c
  {
  }

  lemma TextOfRow(row: seq<char>, o: nat, ps: seq<Pixel>)
    requires o < |row| && row[..o] == Encode(ps) && row[o] == '\0'
    ensures UpToNul(row) == Encode(ps)
  {
    hide Encode;
    EncodeAlphabet(ps);
    UpToNulOf(row[..o], row[o..]);
    assert row == row[..o] + row[o..];
  }

  lemma EncodeUnfoldEmpty()
    ensures Encode([]) == ""
  {
  }

  lemma TokenUnfold(p: Pixel, run: nat)
    ensures Token(p, run) == if run > 1 then Hex(p) + ("*" + Decimal(run) + ".") else Hex(p)
  {
  }

  // ----- the frames on the host -----

  /** A line of the console log, by its fields. */
  datatype Line = Dump(tag: nat, y: nat, text: string) | Crop(tag: nat, y: nat, text: string) | Other

  /** What a line adds to the frames: a row that decodes to 128 pixels. */
  function RowEntry(line: Line): Option<((nat, nat), string)> {
    if line.Dump? && |Expanded(line.text)| == 768 then Some(((line.tag, line.y), Expanded(line.text))) else None
  }

  function RowEntries(log: seq<Line>): (r: seq<Option<((nat, nat), string)>>)
    ensures |r| == |log| && forall i | 0 <= i < |log| :: r[i] == RowEntry(log[i])
  {
    seq(|log|, i requires 0 <= i < |log| => RowEntry(log[i]))
  }

  method Frames(log: seq<Line>) returns (frames: map<(nat, nat), string>)
    ensures frames == Collected(RowEntries(log))
  {
    hide Expanded;
    frames := map[];
    var i := 0;
    while i < |log|
      invariant 0 <= i <= |log|
      invariant frames == Collected(RowEntries(log[..i]))
    {
      assert RowEntries(log[..i + 1])[..i] == RowEntries(log[..i]);
      if log[i].Dump? {
        var decoded := Expand(log[i].text);
        if |decoded| == 768 {
          frames := frames[(log[i].tag, log[i].y) := decoded];
        }
      }
      i := i + 1;
    }
    assert log[..i] == log;
  }

  /** A printed row gets in exactly when it has 128 pixels. */
  lemma AcceptedExactly(tag: nat, y: nat, ps: seq<Pixel>)
    ensures RowEntry(Dump(tag, y, Encode(ps))) == if |ps| == 128 then Some(((tag, y), HexOf(ps))) else None
  {
    hide Encode, HexOf, Expanded;
    RoundTrip(ps);
  }

  /** The frame holds the picture of the last complete dump of each row, whatever else the log says. */
  lemma LastPictureStays(log: seq<Line>, i: nat, tag: nat, y: nat, ps: seq<Pixel>)
    requires i < |log| && |ps| == 128 && log[i] == Dump(tag, y, Encode(ps))
    requires forall j | i < j < |log| && log[j].Dump? && log[j].tag == tag && log[j].y == y :: |Expanded(log[j].text)| != 768
    ensures var frames := Collected(RowEntries(log));
            (tag, y) in frames && frames[(tag, y)] == HexOf(ps)
  {
    hide Encode, HexOf, Expanded, Collected;
    AcceptedExactly(tag, y, ps);
    LastStays(RowEntries(log), i);
  }

  /** What a line adds to the crops: a row of any width. */
  function CropEntry(line: Line): Option<((nat, nat), string)> {
    if line.Crop? && Expanded(line.text) != "" && |Expanded(line.text)| % 6 == 0 then
      Some(((line.tag, line.y), Expanded(line.text)))
    else None
  }

  function CropEntries(log: seq<Line>): (r: seq<Option<((nat, nat), string)>>)
    ensures |r| == |log| && forall i | 0 <= i < |log| :: r[i] == CropEntry(log[i])
  {
    seq(|log|, i requires 0 <= i < |log| => CropEntry(log[i]))
  }

  method Crops(log: seq<Line>) returns (crops: map<(nat, nat), string>)
    ensures crops == Collected(CropEntries(log))
  {
    hide Expanded;
    crops := map[];
    var i := 0;
    while i < |log|
      invariant 0 <= i <= |log|
      invariant crops == Collected(CropEntries(log[..i]))
    {
      assert CropEntries(log[..i + 1])[..i] == CropEntries(log[..i]);
      if log[i].Crop? {
        var decoded := Expand(log[i].text);
        if decoded != "" && |decoded| % 6 == 0 {
          crops := crops[(log[i].tag, log[i].y) := decoded];
        }
      }
      i := i + 1;
    }
    assert log[..i] == log;
  }

  /**
   The row of a crop that is printed after `printed` gets in as itself if it has pixels; an empty one
   gets in too, as the last row `j` that had some, unless there was none.
   */
  lemma CropAcceptedExactly(tag: nat, y: nat, printed: seq<seq<Pixel>>, ps: seq<Pixel>)
    ensures var entry := CropEntry(Crop(tag, y, Left(printed + [ps])));
            && (entry.None? <==> ps == [] && Blank(printed))
            && (ps != [] ==> entry == Some(((tag, y), HexOf(ps))))
            && forall j | 0 <= j < |printed| && printed[j] != [] && ps == [] && Blank(printed[j + 1..]) ::
                 entry == Some(((tag, y), HexOf(printed[j])))
  {
    hide Encode, HexOf, Expanded, Left, Blank;
    LeftOfMore(printed, ps);
    LeftDecodes(printed);
    if ps != [] {
      RoundTrip(ps);
    } else {
      DecodesToPixels(Left(printed));
      forall j | 0 <= j < |printed| && printed[j] != [] && Blank(printed[j + 1..])
        ensures Expanded(Left(printed)) == HexOf(printed[j])
      {
        LeftFrom(printed, j);
        RoundTrip(printed[j]);
      }
    }
  }

  lemma LeftFrom(printed: seq<seq<Pixel>>, j: nat)
    requires j < |printed| && printed[j] != [] && Blank(printed[j + 1..])
    ensures Left(printed) == Encode(printed[j])
  {
    hide Encode, Left;
    forall k | j < k < |printed|
      ensures printed[k] == []
    {
      var behind := printed[j + 1..];
      assert behind[k - j - 1] == printed[k];
      assert behind[k - j - 1] in behind;
    }
    LeftIsLast(printed, j);
  }

  function HexValue(c: char): (d: nat)
    requires IsHex(c)
    ensures d < 16
  {
    if c <= '9' then c as int - '0' as int else c as int - 'a' as int + 10
  }

  /** The pixel that six characters of a decoded row stand for. */
  function ToPixel(s: string): Pixel
    requires |s| == 6 && forall c | c in s :: IsHex(c)
  {
    Pixel(HexValue(s[0]) * 16 + HexValue(s[1]), HexValue(s[2]) * 16 + HexValue(s[3]), HexValue(s[4]) * 16 + HexValue(s[5]))
  }

  lemma HexReadsBack(p: Pixel)
    ensures ToPixel(Hex(p)) == p
  {
    hide HexDigit, HexValue, IsHex;
    forall d | 0 <= d < 16 ensures IsHex(HexDigit(d)) && HexValue(HexDigit(d)) == d { DigitReadsBack(d); }
  }

  lemma DigitReadsBack(d: int)
    requires 0 <= d < 16
    ensures IsHex(HexDigit(d)) && HexValue(HexDigit(d)) == d
  {
  }

  /** Each pixel of the image is the pixel that was on screen. */
  lemma {:induction false} PixelReadsBack(ps: seq<Pixel>, x: nat)
    requires x < |ps|
    ensures HexOf(ps)[x * 6..x * 6 + 6] == Hex(ps[x]) && ToPixel(HexOf(ps)[x * 6..x * 6 + 6]) == ps[x]
  {
    hide Hex, ToPixel, IsHex;
    HexReadsBack(ps[x]);
    if x > 0 {
      PixelReadsBack(ps[1..], x - 1);
      assert HexOf(ps)[6..] == HexOf(ps[1..]);
      assert HexOf(ps)[x * 6..x * 6 + 6] == HexOf(ps)[6..][(x - 1) * 6..(x - 1) * 6 + 6];
    }
  }

  /** `int(s, 16)` */
  function FromHex(s: string): nat
    requires forall c | c in s :: IsHex(c)
  {
    if s == "" then 0
    else
      assert s[|s| - 1] in s;
      16 * FromHex(s[..|s| - 1]) + HexValue(s[|s| - 1])
  }

  lemma {:induction false} FromHexMore(s: string, c: char)
    requires IsHex(c) && forall d | d in s :: IsHex(d)
    ensures FromHex(s + [c]) == 16 * FromHex(s) + HexValue(c)
  {
    assert (s + [c])[..|s|] == s;
  }

  /** The number printed for a pixel has its red byte in front and its blue one last. */
  lemma PixelAsNumber(p: Pixel)
    ensures FromHex(Hex(p)) == p.r * 65536 + p.g * 256 + p.b
  {
    var s := Hex(p);
    forall d | 0 <= d < 16 ensures IsHex(HexDigit(d)) && HexValue(HexDigit(d)) == d { DigitReadsBack(d); }
    hide HexDigit, HexValue, IsHex, FromHex;
    assert s == [s[0]] + [s[1]] + [s[2]] + [s[3]] + [s[4]] + [s[5]];
    var none := "";
    assert none + [s[0]] == [s[0]];
    FromHexOfNone();
    FromHexMore(none, s[0]);
    FromHexMore([s[0]], s[1]);
    FromHexMore([s[0]] + [s[1]], s[2]);
    FromHexMore([s[0]] + [s[1]] + [s[2]], s[3]);
    FromHexMore([s[0]] + [s[1]] + [s[2]] + [s[3]], s[4]);
    FromHexMore([s[0]] + [s[1]] + [s[2]] + [s[3]] + [s[4]], s[5]);
  }

  lemma FromHexOfNone()
    ensures FromHex("") == 0
  {
  }

  /** The number `v` is the pixel that starts at byte `o`: its blue byte first, its red one third. */
  predicate IsPixelAt(fb: seq<Byte>, o: int, v: nat) {
    0 <= o && o + 4 <= |fb| && v / 65536 == fb[o + 2] && v / 256 % 256 == fb[o + 1] && v % 256 == fb[o]
  }

  /** Pixel `i` of a decoded row is the one that starts at byte `o`. */
  predicate ReadsAs(text: string, i: nat, fb: seq<Byte>, o: int) {
    && 6 * i + 6 <= |text|
    && (forall c | c in text[6 * i..6 * i + 6] :: IsHex(c))
    && IsPixelAt(fb, o, FromHex(text[6 * i..6 * i + 6]))
  }

  /** The first byte of the pixel in column `x` and row `y` of the screen. */
  function ByteAt(width: int, x: int, y: int): int {
    (y * width + x) * 4
  }

  /**
   From the framebuffer to the image: of a printed row of the screen the decoder reads, for every pixel,
   the one in memory, `step` pixels behind the one before, from column `x` of row `y` on.
   */
  lemma ScreenToImage(fb: seq<Byte>, width: nat, height: nat, x: nat, y: nat, n: nat, step: nat, i: nat)
    requires |fb| == width * height * 4
    requires y < height && n >= 1 && x + (n - 1) * step < width && i < n
    ensures var text := Expanded(Encode(Region(fb, width, height, x, y, n, step)));
            |text| == 6 * n && ReadsAs(text, i, fb, ByteAt(width, x + i * step, y))
  {
    hide Region, Expanded, Encode, HexOf, Hex, FromHex, IsPixelAt;
    var ps := Region(fb, width, height, x, y, n, step);
    RoundTrip(ps);
    PixelReadsBack(ps, i);
    PixelAsNumber(ps[i]);
    RegionAt(fb, width, height, x, y, n, step, i);
  }

  /**
   The same for a crop: a pixel of the screen that is asked for, among the first 256 columns, is read from
   the row and the column of the picture that lie as far from its corner.
   */
  lemma CropToImage(fb: seq<Byte>, width: nat, height: nat, c: Rectangle, x: nat, y: nat)
    requires |fb| == width * height * 4 && x < width && y < height
    requires Start(c.x) <= x && x - Start(c.x) < 256 && x - Start(c.x) < c.w
    requires Start(c.y) <= y && y - Start(c.y) < c.h
    ensures y - Start(c.y) < |CropRows(fb, width, height, Clamped(c, width, height))|
    ensures var row := CropRows(fb, width, height, Clamped(c, width, height))[y - Start(c.y)];
            ReadsAs(Expanded(Encode(row)), x - Start(c.x), fb, ByteAt(width, x, y))
  {
    hide *;
    ClampedExactly(c, width, height, x, y);
    CropPixel(fb, width, height, Clamped(c, width, height), x, y);
  }

  lemma CropPixel(fb: seq<Byte>, width: nat, height: nat, k: Rectangle, x: nat, y: nat)
    requires |fb| == width * height * 4
    requires k.x >= 0 && k.y >= 0 && k.x + k.w <= width && k.y + k.h <= height
    requires k.x <= x < k.x + k.w && k.y <= y < k.y + k.h
    ensures y - k.y < |CropRows(fb, width, height, k)|
    ensures ReadsAs(Expanded(Encode(CropRows(fb, width, height, k)[y - k.y])), x - k.x, fb, ByteAt(width, x, y))
  {
    hide *;
    CropRowIs(fb, width, height, k, y);
    ScreenToImage(fb, width, height, k.x, y, k.w, 1, x - k.x);
  }

  lemma CropRowIs(fb: seq<Byte>, width: nat, height: nat, k: Rectangle, y: nat)
    requires |fb| == width * height * 4
    requires k.x >= 0 && k.y >= 0 && k.w > 0 && k.x + k.w <= width && k.y <= y < k.y + k.h && k.y + k.h <= height
    ensures y - k.y < |CropRows(fb, width, height, k)|
    ensures CropRows(fb, width, height, k)[y - k.y] == Region(fb, width, height, k.x, y, k.w, 1)
  {
    hide Region;
  }

  lemma RegionAt(fb: seq<Byte>, width: nat, height: nat, x: nat, y: nat, n: nat, step: nat, i: nat)
    requires |fb| == width * height * 4
    requires y < height && n >= 1 && x + (n - 1) * step < width && i < n
    ensures var p := Region(fb, width, height, x, y, n, step)[i];
            IsPixelAt(fb, ByteAt(width, x + i * step, y), p.r * 65536 + p.g * 256 + p.b)
  {
    OffsetInside(width, height, x, y, n, step, i);
    hide IsPixelAt;
    PixelIsAt(fb, (y * width + x + i * step) * 4);
  }

  lemma PixelIsAt(fb: seq<Byte>, o: nat)
    requires o + 4 <= |fb|
    ensures var p := PixelAt(fb, o); IsPixelAt(fb, o, p.r * 65536 + p.g * 256 + p.b)
  {
    BytesOf(fb[o + 2], fb[o + 1], fb[o]);
  }

  lemma BytesOf(r: Byte, g: Byte, b: Byte)
    ensures var v := r * 65536 + g * 256 + b; v / 65536 == r && v / 256 % 256 == g && v % 256 == b
  {
    var v := r * 65536 + g * 256 + b;
    QuotientIs(v, 65536, r);
    QuotientIs(v, 256, r * 256 + g);
    LastByte(r, g);
    LastByte(r * 256 + g, b);
  }

  lemma LastByte(a: nat, b: Byte)
    ensures (a * 256 + b) % 256 == b
  {
  }

  // ----- other text -----

  /** Fewer than six hexadecimal digits in front of some other character are skipped, and so is that. */
  lemma {:induction false} ShortRunIsSkipped(digits: string, c: char, s: string)
    requires |digits| < 6 && !IsHex(c)
    ensures Expanded(digits + [c] + s) == Expanded(s)
  {
    var t := digits + [c] + s;
    assert t[|digits|] == c;
    assert !HexAt(t, 0);
    if digits == "" {
      assert t[1..] == s;
    } else {
      assert t[1..] == digits[1..] + [c] + s;
      ShortRunIsSkipped(digits[1..], c, s);
    }
  }

  /** Whatever the text, it is decoded to whole pixels: the test for a length divisible by 6 never fails. */
  lemma {:induction false} DecodesToPixels(s: string)
    ensures |Expanded(s)| % 6 == 0 && forall c | c in Expanded(s) :: IsHex(c)
    decreases |s|
  {
    if s == "" {
    } else if !HexAt(s, 0) {
      DecodesToPixels(s[1..]);
    } else {
      var r := Repetition(s[6..]);
      DecodesToPixels(s[6 + r.1..]);
      RepeatedPixels(s[..6], r.0);
    }
  }

  lemma {:induction false} RepeatedPixels(s: string, n: nat)
    requires |s| == 6 && forall c | c in s :: IsHex(c)
    ensures |Repeat(s, n)| == 6 * n && forall c | c in Repeat(s, n) :: IsHex(c)
  {
    if n > 0 { RepeatedPixels(s, n - 1); }
  }
}
