/** The text form of a field dictionary: one line for each field, made of field
    identifier, name and type with bars between them. */
module DictionaryText {
  import opened Options

  datatype Field = Field(fid: nat, name: string, ftype: int)

  // ----- numbers

  const DIGITS := "0123456789"

  function Digits(n: nat): (s: string)
    ensures |s| > 0 && forall i :: 0 <= i < |s| ==> s[i] in DIGITS
  {
    if n < 10 then [DIGITS[n]] else Digits(n / 10) + [DIGITS[n % 10]]
  }

  /** The `%d` format. */
  function Itoa(n: int): (s: string)
    ensures |s| > 0 && s[|s| - 1] in DIGITS && forall i :: 0 <= i < |s| ==> s[i] in DIGITS || s[i] == '-'
  {
    if n < 0 then "-" + Digits(-n) else Digits(n)
  }

  predicate IsDigit(c: char) {
    '0' <= c <= '9'
  }

  predicate IsSpace(c: char) {
    c == ' ' || '\t' <= c <= '\r'
  }

  function DigitValue(c: char): int
    requires IsDigit(c)
  {
    (c - '0') as int
  }

  /** Value of the digits that `s` starts with, after `acc`. */
  function Value(acc: int, s: string): int
    decreases |s|
  {
    if s == [] || !IsDigit(s[0]) then acc else Value(10 * acc + DigitValue(s[0]), s[1..])
  }

  function Atoi(s: string): int
    decreases |s|
  {
    if s == [] then 0
    else if IsSpace(s[0]) then Atoi(s[1..])
    else if s[0] == '-' then -Value(0, s[1..])
    else if s[0] == '+' then Value(0, s[1..])
    else Value(0, s)
  }

  lemma {:induction false} ValueAppend(acc: int, s: string, c: char)
    requires IsDigit(c) && forall i :: 0 <= i < |s| ==> IsDigit(s[i])
    ensures Value(acc, s + [c]) == 10 * Value(acc, s) + DigitValue(c)
    decreases |s|
  {
    if s == [] {
      assert (s + [c])[1..] == [];
    } else {
      assert (s + [c])[1..] == s[1..] + [c];
      ValueAppend(10 * acc + DigitValue(s[0]), s[1..], c);
    }
  }

  lemma DigitsAre()
    ensures forall c :: c in DIGITS <==> IsDigit(c)
    ensures forall d :: 0 <= d < 10 ==> IsDigit(DIGITS[d]) && DigitValue(DIGITS[d]) == d
  {
  }

  lemma {:induction false} ValueDigits(n: nat)
    ensures Value(0, Digits(n)) == n
  {
    DigitsAre();
    if n >= 10 {
      ValueDigits(n / 10);
      ValueAppend(0, Digits(n / 10), DIGITS[n % 10]);
    } else {
      assert Digits(n)[1..] == [];
    }
  }

  /** Reading back what was printed. */
  lemma AtoiItoa(n: int)
    ensures Atoi(Itoa(n)) == n
  {
    DigitsAre();
    ValueDigits(if n < 0 then -n else n);
    if n < 0 {
      assert Itoa(n)[1..] == Digits(-n);
    }
  }

  /** Only white space: blank, tab, newline, vertical tab, form feed, carriage return. */
  ghost predicate Blank(s: string) {
    forall i :: 0 <= i < |s| ==> s[i] in {' ', '\t', '\n', '\U{0b}', '\U{0c}', '\r'}
  }

  /** White space in front of a number does not count. */
  lemma {:induction false} AtoiSkips(pad: string, s: string)
    requires Blank(pad)
    ensures Atoi(pad + s) == Atoi(s)
    decreases |pad|
  {
    if pad == [] {
      assert pad + s == s;
    } else {
      assert (pad + s)[1..] == pad[1..] + s && IsSpace(pad[0]);
      AtoiSkips(pad[1..], s);
    }
  }

  // ----- lines

  /** A field's line without its newline. */
  function Line(d: Field): string {
    Itoa(d.fid) + "|" + d.name + "|" + Itoa(d.ftype)
  }

  /** Index of the first `c` in `s` from `i` on, or the length of `s`. */
  function Index(s: string, c: char, i: nat): (p: nat)
    requires i <= |s|
    ensures i <= p <= |s| && (p < |s| ==> s[p] == c)
    ensures forall k :: i <= k < p ==> s[k] != c
    decreases |s| - i
  {
    if i == |s| || s[i] == c then i else Index(s, c, i + 1)
  }

  lemma IndexIs(s: string, c: char, i: nat, p: nat)
    requires i <= p < |s| && s[p] == c && forall k :: i <= k < p ==> s[k] != c
    ensures Index(s, c, i) == p
  {
  }

  /** What precedes the first NUL: the C string in a buffer. */
  function Cut(s: string): string {
    s[..Index(s, '\0', 0)]
  }

  function Strip(s: string): (r: string)
    ensures r <= s
    decreases |s|
  {
    if s != [] && IsSpace(s[|s| - 1]) then Strip(s[..|s| - 1]) else s
  }

  /** White space at the end goes, all of it and nothing else. */
  lemma {:induction false} StripDrops(s: string, pad: string)
    requires Blank(pad) && (s == [] || !Blank(s[|s| - 1..]))
    ensures Strip(s + pad) == s
    decreases |pad|
  {
    if pad == [] {
      assert s + pad == s && (s != [] ==> s[|s| - 1..] == [s[|s| - 1]]);
    } else {
      var t := s + pad;
      assert t[..|t| - 1] == s + pad[..|pad| - 1] && t[|t| - 1] == pad[|pad| - 1] && IsSpace(pad[|pad| - 1]);
      StripDrops(s, pad[..|pad| - 1]);
    }
  }

  /** The three parts of a line, by its first two bars; a line with fewer bars is not valid. */
  function Parse(line: string): Option<Field> {
    var p := Index(line, '|', 0);
    if p == |line| then None
    else
      var q := Index(line, '|', p + 1);
      if q == |line| then None
      else Some(Field(Atoi(line[..p]) % 65536, line[p + 1..q], Atoi(line[q + 1..])))
  }

  lemma ItoaPlain(n: int)
    ensures '|' !in Itoa(n) && '\n' !in Itoa(n) && '\0' !in Itoa(n) && !IsSpace(Itoa(n)[|Itoa(n)| - 1])
  {
    DigitsAre();
  }

  /** Where the bars are in a field's line. */
  lemma LineBars(d: Field)
    ensures var s, p := Line(d), |Itoa(d.fid)|;
      p < |s| && s[..p] == Itoa(d.fid) && Index(s, '|', 0) == p
    ensures var s, p := Line(d), |Itoa(d.fid)|;
      var q := p + 1 + Index(d.name, '|', 0);
      q < |s| && Index(s, '|', p + 1) == q && s[p + 1..q] == d.name[..Index(d.name, '|', 0)]
  {
    ItoaPlain(d.fid);
    Bars(Itoa(d.fid), d.name, Itoa(d.ftype));
  }

  lemma Bars(fid: string, name: string, ftype: string)
    requires '|' !in fid
    ensures var s, p, k := fid + "|" + name + "|" + ftype, |fid|, Index(name, '|', 0);
      && s[..p] == fid && Index(s, '|', 0) == p
      && Index(s, '|', p + 1) == p + 1 + k && s[p + 1..p + 1 + k] == name[..k]
  {
    hide Index;
    Regroup(fid, "|", name, "|", ftype);
    FirstBar(fid, name + "|" + ftype);
    SecondBar(fid, name, ftype);
  }

  lemma Regroup(a: string, b: string, c: string, d: string, e: string)
    ensures a + b + (c + d + e) == a + b + c + d + e
  {
  }

  lemma FirstBar(fid: string, rest: string)
    requires '|' !in fid
    ensures var s := fid + "|" + rest; s[..|fid|] == fid && Index(s, '|', 0) == |fid|
  {
    hide Index;
    var s := fid + "|" + rest;
    assert forall j :: 0 <= j < |fid| ==> s[j] == fid[j] && fid[j] in fid;
    IndexIs(s, '|', 0, |fid|);
  }

  lemma SecondBar(fid: string, name: string, ftype: string)
    ensures var s, p, k := fid + "|" + name + "|" + ftype, |fid|, Index(name, '|', 0);
      Index(s, '|', p + 1) == p + 1 + k && s[p + 1..p + 1 + k] == name[..k]
  {
    hide Index;
    var s, p, k := fid + "|" + name + "|" + ftype, |fid|, Index(name, '|', 0);
    assert s[p + 1..p + 1 + |name|] == name && s[p + 1 + |name|] == '|';
    assert forall j :: p + 1 <= j < p + 1 + k ==> s[j] == name[j - p - 1];
    IndexIs(s, '|', p + 1, p + 1 + k);
  }

  /** A line gives back its field exactly when the name has no bar in it. */
  lemma ParseLine(d: Field)
    requires d.fid < 65536
    ensures Parse(Line(d)) == Some(d) <==> '|' !in d.name
    ensures Parse(Line(d)).Some? && Parse(Line(d)).value.fid == d.fid
    ensures Parse(Line(d)).value.name == d.name[..Index(d.name, '|', 0)]
  {
    LineBars(d);
    AtoiItoa(d.fid);
    AtoiItoa(d.ftype);
    hide Itoa, Atoi, Index;
    var s, p := Line(d), |Itoa(d.fid)|;
    if '|' !in d.name {
      assert Index(d.name, '|', 0) == |d.name| && d.name[..|d.name|] == d.name;
      assert s[p + 1 + |d.name| + 1..] == Itoa(d.ftype);
    } else {
      assert Index(d.name, '|', 0) < |d.name|;
    }
  }

  // ----- files

  /** snprintf into a buffer of 256 keeps 255 characters. */
  function Print(d: Field): string {
    var s := Line(d) + "\n";
    if |s| <= 255 then s else s[..255]
  }

  /** Length of what fgets takes with a buffer of 255: through the newline, but at most 254. */
  function ChunkLength(text: string): (n: nat)
    requires text != []
    ensures 0 < n <= |text|
  {
    var p := Index(text, '\n', 0);
    var n := if p < |text| then p + 1 else |text|;
    if n <= 254 then n else 254
  }

  /** The fields by identifier. */
  type Fields = map<nat, Field>

  function Entered(fields: Fields, chunk: string): Fields {
    match Parse(Strip(Cut(chunk)))
    case None => fields
    case Some(d) => fields[d.fid := d]
  }

  function Loaded(fields: Fields, text: string): Fields
    decreases |text|
  {
    if text == [] then fields
    else Loaded(Entered(fields, text[..ChunkLength(text)]), text[ChunkLength(text)..])
  }

  /** The name cannot be taken for the end of the name or of the line. */
  ghost predicate Plain(d: Field) {
    '|' !in d.name && '\n' !in d.name
  }

  /** A line that ends without white space is read back, with or without its newline. */
  lemma LineRead(s: string, chunk: string)
    requires s != [] && '\0' !in s && !IsSpace(s[|s| - 1]) && (chunk == s || chunk == s + "\n")
    ensures Strip(Cut(chunk)) == s
  {
    assert '\0' !in chunk;
    assert Index(chunk, '\0', 0) == |chunk| && Cut(chunk) == chunk;
    assert Strip(s) == s;
    assert (s + "\n")[..|s|] == s;
    assert Strip(s + "\n") == Strip(s);
  }

  lemma BlankEntered(fields: Fields)
    ensures Entered(fields, "\n") == fields
  {
    assert Index("\n", '\0', 0) == 1 && Cut("\n") == "\n";
    assert "\n"[..0] == "" && Strip("\n") == "";
    assert Parse("") == None;
  }

  lemma LoadedStep(fields: Fields, text: string)
    requires text != []
    ensures Loaded(fields, text) == Loaded(Entered(fields, text[..ChunkLength(text)]), text[ChunkLength(text)..])
  {
  }

  /** A line that fits is read with its newline. */
  lemma FirstChunk(s: string, rest: string)
    requires '\n' !in s && |s| < 254
    ensures var text, n := s + "\n" + rest, |s| + 1;
      ChunkLength(text) == n && text[..n] == s + "\n" && text[n..] == rest
  {
    var text := s + "\n" + rest;
    NewlineAt(s, rest);
    hide Index;
    assert text[..|s| + 1] == s + "\n" && text[|s| + 1..] == rest;
  }

  /** A line of 254 characters is read without its newline, which is left for the next read. */
  lemma FullChunk(s: string, rest: string)
    requires '\n' !in s && |s| == 254
    ensures var text := s + "\n" + rest;
      ChunkLength(text) == 254 && text[..254] == s && text[254..] == "\n" + rest
  {
    NewlineAt(s, rest);
    hide Index;
  }

  lemma NewlineAt(s: string, rest: string)
    requires '\n' !in s
    ensures Index(s + "\n" + rest, '\n', 0) == |s|
  {
    var text := s + "\n" + rest;
    assert forall k :: 0 <= k < |s| ==> text[k] == s[k] && s[k] in s;
    IndexIs(text, '\n', 0, |s|);
  }

  // ----- whole dictionaries

  /** A dictionary's array: the field with identifier `i` is at index `i`. */
  type Slots = seq<Option<Field>>

  ghost predicate InPlace(slots: Slots) {
    forall i :: 0 <= i < |slots| && slots[i].Some? ==> slots[i].value.fid == i
  }

  ghost function FieldsOf(slots: Slots): Fields {
    map i | 0 <= i < |slots| && slots[i].Some? :: slots[i].value
  }

  function PrintSlot(slot: Option<Field>): string {
    if slot.Some? then Print(slot.value) else ""
  }

  function FileText(slots: Slots): string {
    if slots == [] then "" else FileText(slots[..|slots| - 1]) + PrintSlot(slots[|slots| - 1])
  }

  lemma FieldsGrow(front: Slots, last: Option<Field>)
    ensures FieldsOf(front + [last]) == if last.Some? then FieldsOf(front)[|front| := last.value] else FieldsOf(front)
  {
    var slots := front + [last];
    assert forall i :: 0 <= i < |front| ==> slots[i] == front[i];
  }

  // ----- what names and numbers come back

  ghost predicate PlainNames(fields: Fields) {
    forall k :: k in fields ==> Plain(fields[k])
  }

  lemma StripPlain(s: string)
    requires forall k :: 0 <= k < |s| - 1 ==> s[k] != '\n'
    ensures '\n' !in Strip(s)
  {
    if s != [] && IsSpace(s[|s| - 1]) {
      StripShorter(s[..|s| - 1]);
    }
  }

  lemma StripShorter(s: string)
    requires '\n' !in s
    ensures '\n' !in Strip(s)
  {
    var r := Strip(s);
    assert forall k :: 0 <= k < |r| ==> r[k] == s[k] && s[k] in s;
  }

  lemma ParsePlain(line: string)
    requires '\n' !in line
    ensures Parse(line).Some? ==> '|' !in Parse(line).value.name && '\n' !in Parse(line).value.name
  {
    assert forall k :: 0 <= k < |line| ==> line[k] in line;
  }

  lemma EnteredPlain(fields: Fields, text: string)
    requires PlainNames(fields) && text != []
    ensures PlainNames(Entered(fields, text[..ChunkLength(text)]))
  {
    var chunk := text[..ChunkLength(text)];
    var line := Cut(chunk);
    assert forall k :: 0 <= k < |chunk| - 1 ==> chunk[k] != '\n';
    assert forall k :: 0 <= k < |line| ==> line[k] == chunk[k];
    StripPlain(line);
    ParsePlain(Strip(line));
  }

  /** No file gives a field a name with a bar or a newline in it. */
  lemma {:induction false} LoadedPlain(fields: Fields, text: string)
    requires PlainNames(fields)
    ensures PlainNames(Loaded(fields, text))
    decreases |text|
  {
    if text != [] {
      hide Entered, ChunkLength;
      EnteredPlain(fields, text);
      LoadedPlain(Entered(fields, text[..ChunkLength(text)]), text[ChunkLength(text)..]);
    }
  }

  lemma NoFields()
    ensures PlainNames(map[])
  {
  }

  lemma {:induction false} DigitsPrefix(n: nat, k: nat)
    requires n > 0 && k < |Digits(n)|
    ensures Value(0, Digits(n)[..k]) < n
  {
    if n >= 10 {
      var front := Digits(n / 10);
      if k == |front| {
        assert Digits(n)[..k] == front;
        ValueDigits(n / 10);
      } else {
        assert Digits(n)[..k] == front[..k];
        DigitsPrefix(n / 10, k);
      }
    } else {
      assert Digits(n)[..k] == [];
    }
  }

  /** Cutting off digits changes every number but 0. */
  lemma ItoaPrefix(n: int, k: nat)
    requires n != 0 && k < |Itoa(n)|
    ensures Atoi(Itoa(n)[..k]) != n
  {
    hide Value, Atoi, Digits;
    if n > 0 {
      DigitsPrefix(n, k);
      AtoiDigits(Digits(n)[..k]);
    } else if k > 0 {
      DigitsPrefix(-n, k - 1);
      AtoiMinus(Digits(-n)[..k - 1]);
      assert Itoa(n)[..k] == "-" + Digits(-n)[..k - 1];
    } else {
      assert Itoa(n)[..k] == [];
      AtoiDigits([]);
      ValueNone();
    }
  }

  lemma ValueNone()
    ensures Value(0, []) == 0
  {
  }

  lemma AtoiDigits(t: string)
    requires forall k :: 0 <= k < |t| ==> t[k] in DIGITS
    ensures Atoi(t) == Value(0, t)
  {
    if t != [] {
      DigitChar(t[0]);
    }
  }

  lemma DigitChar(c: char)
    requires c in DIGITS
    ensures IsDigit(c) && !IsSpace(c) && c != '-' && c != '+'
  {
  }

  lemma AtoiMinus(t: string)
    ensures Atoi("-" + t) == -Value(0, t)
  {
    assert ("-" + t)[1..] == t;
  }

  lemma LoadedOne(fields: Fields, c: string)
    requires |c| == 1
    ensures Loaded(fields, c) == fields
  {
    assert c[..1] == c && c[1..] == [];
    ShortInvalid(fields, c);
  }

  lemma ShortInvalid(fields: Fields, chunk: string)
    requires |chunk| == 1
    ensures Entered(fields, chunk) == fields
  {
    var line := Strip(Cut(chunk));
    assert |line| <= 1;
  }

  /** A line cut in front of its second bar is not valid. */
  lemma CutBeforeBar(fid: string, name: string, ftype: string, n: nat)
    requires '|' !in fid && '|' !in name && n <= |fid| + 1 + |name|
    ensures Parse(Strip(Cut((fid + "|" + name + "|" + ftype)[..n]))) == None
  {
    var s := fid + "|" + name + "|" + ftype;
    var line := Strip(Cut(s[..n]));
    assert |line| <= n && forall k :: 0 <= k < |line| ==> line[k] == s[k];
    assert forall k :: 0 <= k < |fid| ==> s[k] == fid[k] && fid[k] in fid;
    assert forall k :: |fid| < k < |fid| + 1 + |name| ==> s[k] == name[k - |fid| - 1] && name[k - |fid| - 1] in name;
  }

  /** A line cut behind its second bar keeps identifier and name, and the front of the type. */
  lemma CutBehindBar(fid: string, name: string, ftype: string, n: nat)
    requires |fid| + 1 + |name| < n <= |fid| + 1 + |name| + 1 + |ftype|
    ensures (fid + "|" + name + "|" + ftype)[..n] == fid + "|" + name + "|" + ftype[..n - |fid| - |name| - 2]
  {
  }

  lemma WholeLine(fid: string, name: string, ftype: string)
    requires '|' !in fid && '|' !in name && '\0' !in fid && '\0' !in name
    requires forall k :: 0 <= k < |ftype| ==> ftype[k] != '\0' && !IsSpace(ftype[k])
    ensures Parse(Strip(Cut(fid + "|" + name + "|" + ftype))) == Some(Field(Atoi(fid) % 65536, name, Atoi(ftype)))
  {
    hide Atoi, Parse, Cut, Strip, Index;
    var t, q := fid + "|" + name + "|" + ftype, |fid| + 1 + |name|;
    Bars(fid, name, ftype);
    NoNul(fid, name, ftype);
    LastSolid(fid, name, ftype);
    SolidLine(t);
    NoBar(name);
    ParseParts(t, |fid|, q);
    LineTail(fid, name, ftype);
  }

  lemma NoBar(name: string)
    requires '|' !in name
    ensures Index(name, '|', 0) == |name| && name[..|name|] == name
  {
  }

  lemma SolidLine(t: string)
    requires t != [] && Index(t, '\0', 0) == |t| && !IsSpace(t[|t| - 1])
    ensures Strip(Cut(t)) == t
  {
    assert Cut(t) == t;
  }

  lemma LineTail(fid: string, name: string, ftype: string)
    ensures (fid + "|" + name + "|" + ftype)[|fid| + 1 + |name| + 1..] == ftype
  {
  }

  lemma ParseParts(t: string, p: nat, q: nat)
    requires p < q < |t| && Index(t, '|', 0) == p && Index(t, '|', p + 1) == q
    ensures Parse(t) == Some(Field(Atoi(t[..p]) % 65536, t[p + 1..q], Atoi(t[q + 1..])))
  {
  }

  lemma NoNul(fid: string, name: string, ftype: string)
    requires '\0' !in fid && '\0' !in name && forall k :: 0 <= k < |ftype| ==> ftype[k] != '\0'
    ensures var t := fid + "|" + name + "|" + ftype; Index(t, '\0', 0) == |t| && t[..|t|] == t
  {
    var t := fid + "|" + name + "|" + ftype;
    assert '\0' !in ftype;
    assert '\0' !in t;
  }

  lemma LastSolid(fid: string, name: string, ftype: string)
    requires forall k :: 0 <= k < |ftype| ==> !IsSpace(ftype[k])
    ensures var t := fid + "|" + name + "|" + ftype; !IsSpace(t[|t| - 1])
  {
    var t := fid + "|" + name + "|" + ftype;
    assert t[|t| - 1] == if ftype == [] then '|' else ftype[|ftype| - 1];
  }

  lemma ItoaSolid(n: int)
    ensures forall k :: 0 <= k < |Itoa(n)| ==> Itoa(n)[k] != '\0' && !IsSpace(Itoa(n)[k])
    ensures Itoa(0) == "0"
  {
    DigitsAre();
  }

  /** Cutting off digits keeps the number exactly when it is 0 and loses its one digit. */
  lemma ShorterType(n: int, k: nat)
    requires k < |Itoa(n)|
    ensures Atoi(Itoa(n)[..k]) == n <==> n == 0
    ensures n == 0 ==> k == 0 && |Itoa(n)| == 1
  {
    ItoaSolid(n);
    if n != 0 {
      ItoaPrefix(n, k);
    } else {
      assert Itoa(n)[..k] == [];
    }
  }

  lemma LoadedNothing(fields: Fields)
    ensures Loaded(fields, "") == fields
  {
  }
}
