/** The `PDSiswa1` file format of `saveData` and `loadData`: a header line,
    then thirteen lines per record in a fixed order. A file is modelled as
    its text, one character per byte; `SplitLines` cuts it into lines, and
    each field is read from a line of its own, keeping at most the width of
    its `fscanf` conversion. Where `fscanf` reads differently (a line longer
    than the width, a field that starts with white space), `ScannedName`
    shows what the scanner does. */
module Codec {
  import opened Util
  import opened Records
  import opened Validation

  const Magic: string := "PDSiswa1"
  const BlockSize: nat := 13

  // ---------------------------------------------------------------------
  // Integers as `%d` prints and scans them

  function DigitChar(d: nat): (c: char)
    requires d < 10
    ensures IsDigit(c) && c as int - '0' as int == d
  {
    ('0' as int + d) as char
  }

  /** The decimal digits of `n`, most significant first. */
  function NatToString(n: nat): (s: string)
    ensures |s| >= 1
  {
    if n < 10 then [DigitChar(n)] else NatToString(n / 10) + [DigitChar(n % 10)]
  }

  /** `%d`: a minus sign for negative numbers, then the digits. */
  function IntToString(n: int): (s: string)
    ensures |s| >= 1 && (s[0] == '-' <==> n < 0)
    ensures forall k :: (if n < 0 then 1 else 0) <= k < |s| ==> IsDigit(s[k])
  {
    NatToStringDigits(if n < 0 then -n else n);
    (if n < 0 then "-" else "") + NatToString(if n < 0 then -n else n)
  }

  lemma {:induction false} NatToStringDigits(n: nat)
    ensures forall i :: 0 <= i < |NatToString(n)| ==> IsDigit(NatToString(n)[i])
  {
    if n >= 10 {
      NatToStringDigits(n / 10);
    }
  }

  /** The position of the first character at or after `i` that is not
      white space. */
  function SpaceEnd(s: string, i: nat): (e: nat)
    requires i <= |s|
    ensures i <= e <= |s|
    ensures e == |s| || !IsSpace(s[e])
    decreases |s| - i
  {
    if i < |s| && IsSpace(s[i]) then SpaceEnd(s, i + 1) else i
  }

  /** The position of the first character at or after `i` that is not a
      decimal digit. */
  function DigitEnd(s: string, i: nat): (e: nat)
    requires i <= |s|
    ensures i <= e <= |s|
    ensures forall j :: i <= j < e ==> IsDigit(s[j])
    ensures e == |s| || !IsDigit(s[e])
    decreases |s| - i
  {
    if i < |s| && IsDigit(s[i]) then DigitEnd(s, i + 1) else i
  }

  /** The value of the decimal digits `s[i..j]`. */
  function DigitsValue(s: string, i: nat, j: nat): int
    requires i <= j <= |s|
    decreases j - i
  {
    if i == j then 0 else DigitsValue(s, i, j - 1) * 10 + (s[j - 1] as int - '0' as int)
  }

  /** `%d` from position `i` of a line: white space, an optional sign, then
      at least one digit. The value read and the position after it. */
  function ScanInt(s: string, i: nat): (r: Option<(int, nat)>)
    requires i <= |s|
    ensures r.Some? ==> i < r.value.1 <= |s|
    ensures r.Some? ==> IsDigit(s[r.value.1 - 1]) && (r.value.1 == |s| || !IsDigit(s[r.value.1]))
  {
    var w := SpaceEnd(s, i);
    var sign := if w < |s| && (s[w] == '-' || s[w] == '+') then 1 else 0;
    var e := DigitEnd(s, w + sign);
    if e == w + sign then None
    else
      var v := DigitsValue(s, w + sign, e);
      Some((if sign == 1 && s[w] == '-' then -v else v, e))
  }

  /** Up to `count` conversions `%d` from position `i`, each after the first
      preceded by a literal '-': the values read before the first one that
      fails. */
  function ScanInts(line: string, i: nat, count: nat): (vs: seq<int>)
    requires i <= |line|
    ensures |vs| <= count
    ensures vs == [] <==> count == 0 || ScanInt(line, i).None?
    ensures vs != [] ==> vs[0] == ScanInt(line, i).value.0
    decreases count
  {
    var first := ScanInt(line, i);
    if count == 0 || first.None? then []
    else
      var e := first.value.1;
      if count > 1 && e < |line| && line[e] == '-' then [first.value.0] + ScanInts(line, e + 1, count - 1)
      else [first.value.0]
  }

  /** Value `i` of a scan, or 0 when the scan stopped before it. */
  function Field(vs: seq<int>, i: nat): int {
    if i < |vs| then vs[i] else 0
  }

  /** `%d` reads nothing where no digit follows. */
  lemma NoDigitNoInt(s: string, i: nat)
    requires i <= |s|
    ensures (forall j :: i <= j < |s| ==> !IsDigit(s[j])) ==> ScanInt(s, i).None?
  {
  }

  /** `%d-%d-%d` on a line. A conversion that fails leaves it and the
      following fields at the zero of the freshly allocated entry. */
  function ScanDate(line: string): (d: Date)
    ensures (forall j :: 0 <= j < |line| ==> !IsDigit(line[j])) ==> d == Date(0, 0, 0)
  {
    NoDigitNoInt(line, 0);
    var vs := ScanInts(line, 0, 3);
    Date(Field(vs, 0), Field(vs, 1), Field(vs, 2))
  }

  /** `%d-%d-%d`: the three numbers joined by dashes. */
  function DateLine(d: Date): (line: string)
    ensures forall k :: 0 <= k < |line| ==> IsDigit(line[k]) || line[k] == '-'
  {
    IntToString(d.day) + "-" + IntToString(d.month) + "-" + IntToString(d.year)
  }

  /** A run of digits ends where the first non-digit is. */
  lemma {:induction false} DigitEndAt(s: string, i: nat, e: nat)
    requires i <= e <= |s|
    requires forall j :: i <= j < e ==> IsDigit(s[j])
    requires e == |s| || !IsDigit(s[e])
    ensures DigitEnd(s, i) == e
    decreases e - i
  {
    if i < e {
      DigitEndAt(s, i + 1, e);
    }
  }

  /** The digits `%d` printed for `m` have the value `m`. */
  lemma {:induction false} DigitsValueAt(s: string, i: nat, j: nat, m: nat)
    requires i <= j <= |s| && s[i..j] == NatToString(m)
    ensures DigitsValue(s, i, j) == m
    decreases m
  {
    if m >= 10 {
      var d := NatToString(m / 10);
      assert s[i..j] == d + [DigitChar(m % 10)];
      assert s[j - 1] == DigitChar(m % 10);
      assert s[i..j - 1] == d by {
        assert s[i..j - 1] == s[i..j][..j - 1 - i];
      }
      DigitsValueAt(s, i, j - 1, m / 10);
    } else {
      assert s[i] == s[i..j][0];
    }
  }

  /** The digits printed for `m` at position `q`, followed by a non-digit
      or the end of the line, are read as `m`. */
  lemma DigitsAt(line: string, q: nat, m: nat)
    requires q + |NatToString(m)| <= |line|
    requires line[q..q + |NatToString(m)|] == NatToString(m)
    requires q + |NatToString(m)| == |line| || !IsDigit(line[q + |NatToString(m)|])
    ensures DigitEnd(line, q) == q + |NatToString(m)|
    ensures DigitsValue(line, q, q + |NatToString(m)|) == m
  {
    var digits := NatToString(m);
    NatToStringDigits(m);
    forall j | q <= j < q + |digits|
      ensures IsDigit(line[j])
    {
      assert line[j] == line[q..q + |digits|][j - q];
    }
    DigitEndAt(line, q, q + |digits|);
    DigitsValueAt(line, q, q + |digits|, m);
  }

  /** `%d` reads back a number printed at position `p` as the digits
      `digits` after the sign `neg`, when a '-' or the end of the line
      follows. */
  lemma SignedAt(line: string, p: nat, neg: bool, m: nat)
    requires var len := (if neg then 1 else 0) + |NatToString(m)|;
             && p + len <= |line|
             && (neg ==> line[p] == '-')
             && line[p + (if neg then 1 else 0)..p + len] == NatToString(m)
             && (p + len == |line| || line[p + len] == '-')
    ensures var len := (if neg then 1 else 0) + |NatToString(m)|;
            ScanInt(line, p) == Some((if neg then -(m as int) else m as int, p + len))
  {
    var q := p + (if neg then 1 else 0);
    var digits := NatToString(m);
    NatToStringDigits(m);
    assert line[q] == digits[0];
    DigitsAt(line, q, m);
    assert SpaceEnd(line, p) == p;
  }

  /** `%d` reads back what `%d` printed in `line[p..e]`, when a '-' or the
      end of the line follows. */
  lemma ScanIntAt(line: string, p: nat, e: nat, n: int)
    requires e == p + |IntToString(n)| && e <= |line|
    requires line[p..e] == IntToString(n)
    requires e == |line| || line[e] == '-'
    ensures ScanInt(line, p) == Some((n, e))
  {
    if n < 0 {
      assert line[p] == '-';
      assert line[p + 1..e] == line[p..e][1..];
      SignedAt(line, p, true, -n);
    } else {
      SignedAt(line, p, false, n);
    }
  }

  /** A conversion followed by '-' lets the scan go on after the dash. */
  lemma ScanIntsStep(line: string, i: nat, count: nat, v: int, e: nat)
    requires i <= |line| && count > 1 && ScanInt(line, i) == Some((v, e))
    requires e < |line| && line[e] == '-'
    ensures ScanInts(line, i, count) == [v] + ScanInts(line, e + 1, count - 1)
  {
  }

  /** `%d-%d-%d` as three scans joined by the two dashes. */
  lemma ScanDateOf(line: string, day: int, i: nat, month: int, j: nat, year: int, k: nat)
    requires ScanInt(line, 0) == Some((day, i))
    requires i < |line| && line[i] == '-' && ScanInt(line, i + 1) == Some((month, j))
    requires j < |line| && line[j] == '-' && ScanInt(line, j + 1) == Some((year, k))
    ensures ScanDate(line) == Date(day, month, year)
  {
    assert ScanInts(line, j + 1, 1) == [year];
    ScanIntsStep(line, i + 1, 2, month, j);
    ScanIntsStep(line, 0, 3, day, i);
  }

  /** Where the two dashes of a printed date line are. */
  lemma DateLineShape(d: Date)
    ensures var a, b, c := IntToString(d.day), IntToString(d.month), IntToString(d.year);
            var line := DateLine(d);
            var i, j := |a|, |a| + 1 + |b|;
            && |line| == j + 1 + |c|
            && line[0..i] == a && line[i] == '-'
            && line[i + 1..j] == b && line[j] == '-'
            && line[j + 1..|line|] == c
  {
    var a, b, c := IntToString(d.day), IntToString(d.month), IntToString(d.year);
    var line := DateLine(d);
    assert line == a + "-" + b + "-" + c;
  }

  /** A line made of the three printed numbers joined by dashes scans
      back to the date. */
  lemma DashedScans(line: string, d: Date, i: nat, j: nat)
    requires i == |IntToString(d.day)| && j == i + 1 + |IntToString(d.month)|
    requires |line| == j + 1 + |IntToString(d.year)|
    requires line[0..i] == IntToString(d.day) && line[i] == '-'
    requires line[i + 1..j] == IntToString(d.month) && line[j] == '-'
    requires line[j + 1..|line|] == IntToString(d.year)
    ensures ScanDate(line) == d
  {
    ScanIntAt(line, 0, i, d.day);
    ScanIntAt(line, i + 1, j, d.month);
    ScanIntAt(line, j + 1, |line|, d.year);
    ScanDateOf(line, d.day, i, d.month, j, d.year, |line|);
  }

  /** A date line as `saveData` prints it scans back to the same date. */
  lemma DateLineScans(d: Date)
    ensures ScanDate(DateLine(d)) == d
  {
    var i := |IntToString(d.day)|;
    DateLineShape(d);
    DashedScans(DateLine(d), d, i, i + 1 + |IntToString(d.month)|);
  }

  // ---------------------------------------------------------------------
  // Lines and text

  /** The text `fprintf(f, "%s\n", line)` writes for each line in turn. */
  function Text(lines: seq<string>): (t: string)
    ensures t == [] <==> lines == []
    ensures lines != [] ==> t[|t| - 1] == '\n'
  {
    if lines == [] then "" else lines[0] + "\n" + Text(lines[1..])
  }

  /** The length of the first line: the position of the first newline, or
      the whole text when there is none. */
  function LineEnd(t: string): (i: nat)
    ensures i <= |t|
    ensures forall j :: 0 <= j < i ==> t[j] != '\n'
    ensures i < |t| ==> t[i] == '\n'
  {
    if t == [] || t[0] == '\n' then 0 else 1 + LineEnd(t[1..])
  }

  /** A newline with none before it is where the first line ends. */
  lemma {:induction false} LineEndAt(t: string, i: nat)
    requires i < |t| && t[i] == '\n'
    requires forall j :: 0 <= j < i ==> t[j] != '\n'
    ensures LineEnd(t) == i
  {
    if i > 0 {
      LineEndAt(t[1..], i - 1);
    }
  }

  /** The lines of a text; a last line without a newline still counts. */
  function SplitLines(t: string): (lines: seq<string>)
    ensures lines == [] <==> t == []
    ensures forall k :: 0 <= k < |lines| ==> NoNewline(lines[k])
    decreases |t|
  {
    if t == [] then []
    else
      var i := LineEnd(t);
      if i == |t| then [t] else [t[..i]] + SplitLines(t[i + 1..])
  }

  predicate NoNewline(s: string) {
    forall i :: 0 <= i < |s| ==> s[i] != '\n'
  }

  /** A line without a newline of its own, then a newline, is the first
      line of the text. */
  lemma SplitFirst(l: string, rest: string)
    requires NoNewline(l)
    ensures SplitLines(l + "\n" + rest) == [l] + SplitLines(rest)
  {
    var t := l + "\n" + rest;
    assert t[|l|] == '\n';
    assert forall j :: 0 <= j < |l| ==> t[j] == l[j];
    LineEndAt(t, |l|);
    assert t[..|l|] == l;
    assert t[|l| + 1..] == rest;
  }

  /** Splitting the written text gives back the lines, when none of them
      holds a newline of its own. */
  lemma {:induction false} SplitText(lines: seq<string>)
    requires forall k :: 0 <= k < |lines| ==> NoNewline(lines[k])
    ensures SplitLines(Text(lines)) == lines
  {
    if lines != [] {
      SplitFirst(lines[0], Text(lines[1..]));
      SplitText(lines[1..]);
    }
  }

  // ---------------------------------------------------------------------
  // Encoding (saveData)

  /** The thirteen lines `saveData` writes for one record. */
  function EncodeRecord(x: StudentData): (lines: seq<string>)
    ensures |lines| == BlockSize
  {
    [x.nisn, x.name, [x.sex], x.birthPlace, DateLine(x.birthDate), x.address, x.phone,
     x.father.name, x.father.phone, x.mother.name, x.mother.phone,
     x.guardian.name, x.guardian.phone]
  }

  function Blocks(xs: seq<StudentData>): (lines: seq<string>)
    ensures |lines| == BlockSize * |xs|
  {
    if xs == [] then [] else EncodeRecord(xs[0]) + Blocks(xs[1..])
  }

  /** The lines of a saved file: the header, then each record in list order. */
  function Encode(xs: seq<StudentData>): (lines: seq<string>)
    ensures |lines| == 1 + BlockSize * |xs| && lines[0] == Magic
  {
    [Magic] + Blocks(xs)
  }

  /** Line `f` of record `k` sits at `1 + 13 * k + f`. */
  lemma {:induction false} EncodeLayout(xs: seq<StudentData>, k: nat, f: nat)
    requires k < |xs| && f < BlockSize
    ensures 1 + BlockSize * k + f < |Encode(xs)|
    ensures Encode(xs)[1 + BlockSize * k + f] == EncodeRecord(xs[k])[f]
  {
    BlocksLayout(xs, k, f);
  }

  lemma {:induction false} BlocksLayout(xs: seq<StudentData>, k: nat, f: nat)
    requires k < |xs| && f < BlockSize
    ensures BlockSize * k + f < |Blocks(xs)|
    ensures Blocks(xs)[BlockSize * k + f] == EncodeRecord(xs[k])[f]
  {
    var lines := Blocks(xs);
    assert lines == EncodeRecord(xs[0]) + Blocks(xs[1..]);
    if k > 0 {
      BlocksLayout(xs[1..], k - 1, f);
      var i := BlockSize * (k - 1) + f;
      assert BlockSize * k + f == BlockSize + i;
      assert lines[BlockSize + i] == Blocks(xs[1..])[i];
    }
  }

  /** Writing one more record appends its thirteen lines: the shape of the
      writing loop of `saveData`. */
  lemma {:induction false} BlocksSnoc(xs: seq<StudentData>, x: StudentData)
    ensures Blocks(xs + [x]) == Blocks(xs) + EncodeRecord(x)
  {
    if xs == [] {
      assert xs + [x] == [x];
      assert Blocks([x]) == EncodeRecord(x) + Blocks([]);
    } else {
      assert (xs + [x])[0] == xs[0];
      assert (xs + [x])[1..] == xs[1..] + [x];
      BlocksSnoc(xs[1..], x);
    }
  }

  /** The lines of the first `i + 1` records are those of the first `i`,
      then record `i`. */
  lemma BlocksPrefix(xs: seq<StudentData>, i: nat)
    requires i < |xs|
    ensures Blocks(xs[..i + 1]) == Blocks(xs[..i]) + EncodeRecord(xs[i])
  {
    assert xs[..i + 1] == xs[..i] + [xs[i]];
    BlocksSnoc(xs[..i], xs[i]);
  }

  /** The file for the first `i + 1` records is the one for the first `i`,
      then record `i`. */
  lemma EncodePrefix(xs: seq<StudentData>, i: nat)
    requires i < |xs|
    ensures Encode(xs[..i + 1]) == Encode(xs[..i]) + EncodeRecord(xs[i])
  {
    BlocksPrefix(xs, i);
  }

  // ---------------------------------------------------------------------
  // Decoding (loadData)

  /** A string field read with `%<width>[^\n]` from a line of its own: at
      most `width` characters from the start of the line. At end of input
      nothing is stored and the line buffer still holds the previous string
      read, which is copied instead. */
  function ReadText(block: seq<string>, i: nat, width: nat, stale: string): (s: string)
    ensures i < |block| ==> |s| <= width && |s| <= |block[i]| && s == block[i][..|s|]
    ensures i < |block| && |block[i]| <= width ==> s == block[i]
    ensures i >= |block| ==> s == stale
  {
    if i < |block| then Take(block[i], width) else stale
  }

  /** `%c`: the first character of the line (an empty line yields its
      newline); at end of input the zeroed field stays '\0'. */
  function ReadChar(block: seq<string>, i: nat): (c: char)
    ensures i < |block| && block[i] != [] ==> c == block[i][0]
    ensures i < |block| && block[i] == [] ==> c == '\n'
    ensures i >= |block| ==> c == '\0'
  {
    if i < |block| then (if block[i] == [] then '\n' else block[i][0]) else '\0'
  }

  /** `%d-%d-%d`; at end of input the zeroed date stays 0-0-0. */
  function ReadDate(block: seq<string>, i: nat): (d: Date)
    ensures i < |block| ==> d == ScanDate(block[i])
    ensures i >= |block| ==> d == Date(0, 0, 0)
  {
    if i < |block| then ScanDate(block[i]) else Date(0, 0, 0)
  }

  /** One pass of the reading loop of `loadData` over the lines of one
      block (all thirteen, or fewer at the end of the file). The NISN line
      is always there when the loop runs. */
  function DecodeBlock(block: seq<string>): (x: StudentData)
    ensures |x.nisn| <= NisnWidth
    ensures |block| == BlockSize ==> FitsWidths(x)
  {
    var nisn := ReadText(block, 0, NisnWidth, []);
    var name := ReadText(block, 1, TextWidth, nisn);
    var sex := ReadChar(block, 2);
    var birthPlace := ReadText(block, 3, TextWidth, name);
    var birthDate := ReadDate(block, 4);
    var address := ReadText(block, 5, TextWidth, birthPlace);
    var phone := ReadText(block, 6, PhoneWidth, address);
    var fatherName := ReadText(block, 7, TextWidth, phone);
    var fatherPhone := ReadText(block, 8, PhoneWidth, fatherName);
    var motherName := ReadText(block, 9, TextWidth, fatherPhone);
    var motherPhone := ReadText(block, 10, PhoneWidth, motherName);
    var guardianName := ReadText(block, 11, TextWidth, motherPhone);
    var guardianPhone := ReadText(block, 12, PhoneWidth, guardianName);
    StudentData(nisn, name, sex, birthPlace, birthDate, address, phone,
                Contact(fatherName, fatherPhone), Contact(motherName, motherPhone),
                Contact(guardianName, guardianPhone))
  }

  /** The records of the lines after the header, one per block of
      thirteen lines, in file order. Every line that starts a block starts
      a record, so a last, incomplete block still yields one. */
  function DecodeBody(lines: seq<string>): (xs: seq<StudentData>)
    ensures xs == [] <==> lines == []
    decreases |lines|
  {
    if lines == [] then []
    else
      var n := Min(BlockSize, |lines|);
      [DecodeBlock(lines[..n])] + DecodeBody(lines[n..])
  }

  /** One record per block started: the lines fill all the blocks but the
      last, which may be incomplete. */
  lemma {:induction false} DecodeBodyLength(lines: seq<string>)
    ensures |lines| <= BlockSize * |DecodeBody(lines)| < |lines| + BlockSize
    decreases |lines|
  {
    if lines != [] {
      DecodeBodyLength(lines[Min(BlockSize, |lines|)..]);
    }
  }

  /** Lines made of whole blocks decode apart from whatever follows them. */
  lemma {:induction false} DecodeBodyAppend(a: seq<string>, b: seq<string>, m: nat)
    requires |a| == BlockSize * m
    ensures DecodeBody(a + b) == DecodeBody(a) + DecodeBody(b)
    decreases m
  {
    if m == 0 {
      assert a + b == b;
    } else {
      var rest := a[BlockSize..];
      assert (a + b)[..BlockSize] == a[..BlockSize];
      assert (a + b)[BlockSize..] == rest + b;
      DecodeBodyAppend(rest, b, m - 1);
    }
  }

  /** At most thirteen lines are one block. */
  lemma DecodeOneBlock(c: seq<string>)
    requires 0 < |c| <= BlockSize
    ensures DecodeBody(c) == [DecodeBlock(c)]
  {
    assert c[..|c|] == c && c[|c|..] == [];
  }

  /** The records of the lines read so far grow by the record of the block
      read next. */
  lemma DecodeBodySnoc(lines: seq<string>, p: nat, q: nat, k: nat)
    requires p == 1 + BlockSize * k && p < |lines|
    requires q == p + Min(BlockSize, |lines| - p)
    ensures DecodeBody(lines[1..q]) == DecodeBody(lines[1..p]) + [DecodeBlock(lines[p..q])]
  {
    var a, c := lines[1..p], lines[p..q];
    assert lines[1..q] == a + c;
    DecodeBodyAppend(a, c, k);
    DecodeOneBlock(c);
  }

  /** What `loadData` makes of a file: whether the header matched (a
      mismatch only warns) and the records in file order. */
  datatype Loaded = Loaded(headerOk: bool, records: seq<StudentData>)

  function Decode(text: string): (r: Loaded)
    ensures r.headerOk <==> text != [] && SplitLines(text)[0] == Magic
    ensures text == [] ==> r.records == []
  {
    var lines := SplitLines(text);
    if lines == [] then Loaded(false, [])
    else Loaded(lines[0] == Magic, DecodeBody(lines[1..]))
  }

  // ---------------------------------------------------------------------
  // The scanner of `loadData` as written, for the first two fields

  /** `%<width>[^\n]` at position `i` of the text: at most `width`
      characters up to the next newline, and the position after them; None
      when no character matches, which leaves the stream where it was. */
  function ScanSet(t: string, i: nat, width: nat): (r: Option<(string, nat)>)
    requires i <= |t|
    ensures r.Some? ==> 1 <= |r.value.0| <= width && NoNewline(r.value.0)
    ensures r.Some? ==> r.value.1 == i + |r.value.0| <= |t| && r.value.0 == t[i..r.value.1]
    ensures r.None? <==> width == 0 || i == |t| || t[i] == '\n'
  {
    var n := Min(width, LineEnd(t[i..]));
    if n == 0 then None else Some((t[i..i + n], i + n))
  }

  /** The name conversion of `loadData` for the first record of the text
      after the header: `%10[^\n]` reads the NISN, the `\n` directive then
      skips every white space character, line breaks included, and
      `%1023[^\n]` reads the name. None when a conversion fails; the name
      then stored is the stale buffer, which this does not model. */
  function ScannedName(t: string): (name: Option<string>)
    ensures name.Some? ==> 1 <= |name.value| <= TextWidth && !IsSpace(name.value[0])
  {
    match ScanSet(t, 0, NisnWidth)
    case None => None
    case Some((_, e)) =>
      var p := SpaceEnd(t, e);
      match ScanSet(t, p, TextWidth)
      case None => None
      case Some((name, _)) => Some(name)
  }

  /** The text of three or more lines starts with the first three. */
  lemma TextStart(lines: seq<string>)
    requires |lines| >= 3
    ensures Text(lines) == lines[0] + "\n" + (lines[1] + "\n" + (lines[2] + "\n" + Text(lines[3..])))
  {
    assert lines[1..][1..] == lines[2..] && lines[2..][1..] == lines[3..];
    assert Text(lines[2..]) == lines[2] + "\n" + Text(lines[3..]);
    assert Text(lines[1..]) == lines[1] + "\n" + Text(lines[2..]);
  }

  /** After the NISN "1", a line of three spaces is skipped and the next
      line is read as the name. */
  lemma ScanPastBlankLine(t: string, rest: string)
    requires t == "1\n" + ("   \n" + ("L\n" + rest))
    ensures ScannedName(t) == Some("L")
  {
    assert t[1] == '\n' && t[5] == '\n' && t[6] == 'L' && t[7] == '\n';
    assert LineEnd(t[0..]) == 1 by {
      assert t[0..] == t;
      LineEndAt(t, 1);
    }
    assert SpaceEnd(t, 1) == 6 by {
      assert t[2] == ' ' && t[3] == ' ' && t[4] == ' ';
      assert SpaceEnd(t, 6) == 6;
      assert SpaceEnd(t, 5) == 6;
      assert SpaceEnd(t, 4) == 6;
      assert SpaceEnd(t, 3) == 6;
      assert SpaceEnd(t, 2) == 6;
    }
    assert LineEnd(t[6..]) == 1 by {
      LineEndAt(t[6..], 1);
    }
    assert ScanSet(t, 0, NisnWidth) == Some((t[0..1], 1));
    assert ScanSet(t, 6, TextWidth) == Some((t[6..7], 7));
    assert t[6..7] == "L";
  }

  /** The name prompt of `addStudent` accepts a name of three spaces, and
      `saveData` writes it on a line of its own; reading the file back, the
      scanner skips that line with the white space after the NISN and takes
      the sex line "L" for the name. The sex is then the first character of
      the birth-place line and the birth place the rest of that line. */
  lemma BlankNameShifts(x: StudentData)
    requires x.nisn == "1" && x.name == "   " && x.sex == 'L'
    ensures Accept(x.name, None, None, TextWidth) == Some(x.name)
    ensures ScannedName(Text(EncodeRecord(x))) == Some("L")
  {
    var lines := EncodeRecord(x);
    TextStart(lines);
    assert lines[0] == "1" && lines[1] == "   " && lines[2] == "L";
    ScanPastBlankLine(Text(lines), Text(lines[3..]));
  }

  // ---------------------------------------------------------------------
  // Round trip

  /** A string that `%s\n` writes and `%<width>[^\n]\n` reads back whole:
      non-empty, within the width, no newline or NUL, and no leading white
      space (the `\n` of the previous conversion skips it, see
      `BlankNameShifts`), and made of bytes, so that the width counts what
      C counts. */
  predicate CleanText(s: string, width: nat) {
    && 1 <= |s| <= width
    && !IsSpace(s[0])
    && forall i :: 0 <= i < |s| ==> s[i] != '\n' && s[i] != '\0' && IsByte(s[i])
  }

  /** A record the file format carries unchanged. */
  predicate Storable(x: StudentData) {
    && CleanText(x.nisn, NisnWidth)
    && CleanText(x.name, TextWidth)
    && !IsSpace(x.sex) && IsByte(x.sex)
    && CleanText(x.birthPlace, TextWidth)
    && CleanText(x.address, TextWidth)
    && CleanText(x.phone, PhoneWidth)
    && CleanText(x.father.name, TextWidth) && CleanText(x.father.phone, PhoneWidth)
    && CleanText(x.mother.name, TextWidth) && CleanText(x.mother.phone, PhoneWidth)
    && CleanText(x.guardian.name, TextWidth) && CleanText(x.guardian.phone, PhoneWidth)
  }

  /** The fields are no longer than the conversions that read them back. */
  predicate FitsWidths(x: StudentData) {
    && |x.nisn| <= NisnWidth && |x.name| <= TextWidth && |x.birthPlace| <= TextWidth
    && |x.address| <= TextWidth && |x.phone| <= PhoneWidth
    && |x.father.name| <= TextWidth && |x.father.phone| <= PhoneWidth
    && |x.mother.name| <= TextWidth && |x.mother.phone| <= PhoneWidth
    && |x.guardian.name| <= TextWidth && |x.guardian.phone| <= PhoneWidth
  }

  /** The thirteen lines of a record read back as the record. */
  lemma DecodeEncodedRecord(x: StudentData)
    requires FitsWidths(x)
    ensures DecodeBlock(EncodeRecord(x)) == x
  {
    DateLineScans(x.birthDate);
  }

  /** The first thirteen saved lines read back as the first record. */
  lemma DecodeFirstBlock(xs: seq<StudentData>)
    requires xs != [] && FitsWidths(xs[0])
    ensures DecodeBody(Blocks(xs)) == [xs[0]] + DecodeBody(Blocks(xs[1..]))
  {
    var lines := Blocks(xs);
    assert lines[..BlockSize] == EncodeRecord(xs[0]);
    assert lines[BlockSize..] == Blocks(xs[1..]);
    DecodeEncodedRecord(xs[0]);
  }

  /** The saved lines of records that fit their fields read back as the
      same records. */
  lemma {:induction false} DecodeBlocks(xs: seq<StudentData>)
    requires forall k :: 0 <= k < |xs| ==> FitsWidths(xs[k])
    ensures DecodeBody(Blocks(xs)) == xs
  {
    if xs != [] {
      DecodeFirstBlock(xs);
      DecodeBlocks(xs[1..]);
    }
  }

  lemma NatToStringNoNewline(n: nat)
    ensures NoNewline(NatToString(n))
  {
    NatToStringDigits(n);
  }

  lemma DateLineNoNewline(d: Date)
    ensures NoNewline(DateLine(d))
  {
    NatToStringNoNewline(if d.day < 0 then -d.day else d.day);
    NatToStringNoNewline(if d.month < 0 then -d.month else d.month);
    NatToStringNoNewline(if d.year < 0 then -d.year else d.year);
  }

  lemma {:induction false} BlocksNoNewline(xs: seq<StudentData>)
    requires forall k :: 0 <= k < |xs| ==> Storable(xs[k])
    ensures forall i :: 0 <= i < |Blocks(xs)| ==> NoNewline(Blocks(xs)[i])
  {
    if xs != [] {
      DateLineNoNewline(xs[0].birthDate);
      BlocksNoNewline(xs[1..]);
      var r := EncodeRecord(xs[0]);
      assert forall f :: 0 <= f < |r| ==> NoNewline(r[f]);
    }
  }

  /** Storable records fit the fields they are read back into. */
  lemma StorableFitsWidths(xs: seq<StudentData>)
    requires forall k :: 0 <= k < |xs| ==> Storable(xs[k])
    ensures forall k :: 0 <= k < |xs| ==> FitsWidths(xs[k])
  {
    forall k | 0 <= k < |xs|
      ensures FitsWidths(xs[k])
    {
      assert Storable(xs[k]);
    }
  }

  /** No line of a saved file holds a line break. */
  lemma FileNoNewline(header: string, xs: seq<StudentData>)
    requires NoNewline(header)
    requires forall k :: 0 <= k < |xs| ==> Storable(xs[k])
    ensures forall i :: 0 <= i < |[header] + Blocks(xs)| ==> NoNewline(([header] + Blocks(xs))[i])
  {
    var lines := [header] + Blocks(xs);
    BlocksNoNewline(xs);
    forall i | 0 <= i < |lines|
      ensures NoNewline(lines[i])
    {
      if i > 0 {
        assert lines[i] == Blocks(xs)[i - 1];
      }
    }
  }

  /** Loading a saved list gives the list back, in the same order, whatever
      single-line header the file has; only a header other than "PDSiswa1"
      is reported. */
  lemma LoadAnyHeader(header: string, xs: seq<StudentData>)
    requires NoNewline(header)
    requires forall k :: 0 <= k < |xs| ==> Storable(xs[k])
    ensures Decode(Text([header] + Blocks(xs))) == Loaded(header == Magic, xs)
  {
    var lines := [header] + Blocks(xs);
    FileNoNewline(header, xs);
    SplitText(lines);
    assert lines[1..] == Blocks(xs);
    StorableFitsWidths(xs);
    DecodeBlocks(xs);
  }

  /** decode(encode(xs)) == xs: loading what `saveData` wrote restores the
      list in the same order, with the header accepted. */
  lemma RoundTrip(xs: seq<StudentData>)
    requires forall k :: 0 <= k < |xs| ==> Storable(xs[k])
    ensures Decode(Text(Encode(xs))) == Loaded(true, xs)
  {
    LoadAnyHeader(Magic, xs);
  }
}
