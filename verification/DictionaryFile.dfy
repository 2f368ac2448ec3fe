/** Whole dictionary files: which fields come back when a written dictionary is
    read, for names and lines of any length. */
module DictionaryFile {
  import opened Options
  import opened DictionaryText

  /** A field as C has it: a 16-bit identifier and a string without NUL. */
  ghost predicate Proper(d: Field) {
    d.fid < 65536 && '\0' !in d.name
  }

  ghost predicate AllProper(ds: seq<Field>) {
    forall i :: 0 <= i < |ds| ==> Proper(ds[i])
  }

  ghost predicate DistinctFids(ds: seq<Field>) {
    forall i, j :: 0 <= i < j < |ds| ==> ds[i].fid != ds[j].fid
  }

  /** The lines of the fields, one after the other. */
  function FileOf(ds: seq<Field>): string {
    if ds == [] then "" else FileOf(ds[..|ds| - 1]) + Print(ds[|ds| - 1])
  }

  ghost function ByFid(ds: seq<Field>): Fields {
    if ds == [] then map[] else ByFid(ds[..|ds| - 1])[ds[|ds| - 1].fid := ds[|ds| - 1]]
  }

  // ----- which fields survive

  /** How many characters of the line before field `i` are read together with its
      own line: one, if that line is too long for its newline. */
  ghost function Carry(ds: seq<Field>, i: nat): nat
    requires i <= |ds|
  {
    if i > 0 && |Line(ds[i - 1])| >= 255 then 1 else 0
  }

  /** The line and what is carried over fit the buffer, or all but a type of 0 does. */
  ghost predicate Survives(carry: nat, d: Field) {
    Plain(d) && (carry + |Line(d)| <= 254 || (carry + |Line(d)| == 255 && d.ftype == 0))
  }

  ghost predicate AllSurvive(ds: seq<Field>) {
    forall i :: 0 <= i < |ds| ==> Survives(Carry(ds, i), ds[i])
  }

  // ----- one line, with what the line before has left

  /** What a surviving long line leaves: the digit of its type. */
  function Left(carry: nat): string {
    if carry == 0 then "" else "0"
  }

  lemma AtoiZero(n: nat)
    ensures Atoi("0" + Digits(n)) == n
  {
    var s := Digits(n);
    DigitsAre();
    ValueDigits(n);
    hide Digits;
    AtoiDigits("0" + s);
    assert ("0" + s)[1..] == s;
  }


  /** The line of a field as it is read, behind `carry` characters. */
  function Row(carry: nat, d: Field): string {
    Left(carry) + Line(d)
  }

  function Parts(f: string, name: string, t: string): string {
    f + "|" + name + "|" + t
  }

  /** A field's row by its three parts. */
  lemma Glued(carry: nat, d: Field) returns (f: string, t: string)
    requires Proper(d)
    ensures Row(carry, d) == Parts(f, d.name, t) && t == Itoa(d.ftype) && Atoi(f) == d.fid && |f| <= 6
    ensures '|' !in f && '\0' !in f && '\n' !in f && '|' !in t && '\0' !in t && '\n' !in t
    ensures forall k :: 0 <= k < |t| ==> t[k] != '\0' && !IsSpace(t[k])
  {
    hide Atoi, Itoa, Left;
    f, t := Left(carry) + Itoa(d.fid), Itoa(d.ftype);
    ItoaPlain(d.ftype);
    ItoaSolid(d.ftype);
    Numbered(carry, d.fid);
    InFront(Left(carry), Itoa(d.fid), d.name, t);
  }

  lemma InFront(a: string, f: string, name: string, t: string)
    ensures a + (f + "|" + name + "|" + t) == Parts(a + f, name, t)
  {
  }

  /** A zero in front of an identifier does not change it. */
  lemma Numbered(carry: nat, fid: nat)
    requires fid < 65536
    ensures var f := Left(carry) + Itoa(fid);
      '|' !in f && '\0' !in f && '\n' !in f && Atoi(f) == fid && |f| <= 6
  {
    ItoaPlain(fid);
    AtoiItoa(fid);
    AtoiZero(fid);
    FidShort(fid);
    hide Atoi, Digits;
    assert carry == 0 ==> Left(carry) + Itoa(fid) == Itoa(fid);
  }

  lemma FidShort(n: nat)
    requires n < 65536
    ensures |Itoa(n)| <= 5
  {
    assert n / 10 < 6554 && n / 10 / 10 < 656 && n / 10 / 10 / 10 < 66 && n / 10 / 10 / 10 / 10 < 7;
    assert |Digits(n / 10 / 10 / 10 / 10)| == 1;
    assert |Digits(n / 10 / 10 / 10)| <= 2;
    assert |Digits(n / 10 / 10)| <= 3;
    assert |Digits(n / 10)| <= 4;
  }

  /** A line that fits is read whole, wherever it stands. */
  lemma LoadedRow(fields: Fields, s: string, d: Field, rest: string)
    requires s != [] && '\n' !in s && '\0' !in s && !IsSpace(s[|s| - 1]) && |s| <= 254 && Parse(s) == Some(d)
    ensures Loaded(fields, s + "\n" + rest) == Loaded(fields[d.fid := d], rest)
  {
    hide Loaded, ChunkLength, Parse, Cut, Strip;
    LoadedStep(fields, s + "\n" + rest);
    if |s| < 254 {
      FirstChunk(s, rest);
      LineRead(s, s + "\n");
    } else {
      FullChunk(s, rest);
      LineRead(s, s);
      FirstChunk("", rest);
      assert "" + "\n" + rest == "\n" + rest && "" + "\n" == "\n";
      BlankEntered(fields[d.fid := d]);
      LoadedStep(fields[d.fid := d], "\n" + rest);
    }
  }

  /** 254 characters without a newline are read on their own. */
  lemma LoadedCut(fields: Fields, s: string, rest: string)
    requires |s| == 254 && '\n' !in s
    ensures Loaded(fields, s + rest) == Loaded(Entered(fields, s), rest)
  {
    var text := s + rest;
    assert forall k :: 0 <= k < 254 ==> text[k] == s[k] && s[k] in s;
    assert text[..254] == s && text[254..] == rest;
    assert ChunkLength(text) == 254;
    hide ChunkLength, Entered;
  }

  /** What the first 254 characters of a longer line give when its second bar is
      among them: the front of the type. */
  lemma CutRow(f: string, name: string, t: string)
    requires |f| + 1 + |name| < 254 <= |Parts(f, name, t)|
    requires '|' !in f && '|' !in name && '\0' !in f && '\0' !in name
    requires forall k :: 0 <= k < |t| ==> t[k] != '\0' && !IsSpace(t[k])
    ensures Parse(Strip(Cut(Parts(f, name, t)[..254]))) ==
      Some(Field(Atoi(f) % 65536, name, Atoi(t[..252 - |f| - |name|])))
  {
    hide Parse, Strip, Cut, Atoi;
    var u := t[..252 - |f| - |name|];
    CutBehindBar(f, name, t, 254);
    WholeLine(f, name, u);
  }

  /** When it is not, they give nothing. */
  lemma CutEarly(f: string, name: string, t: string)
    requires |f| + 1 + |name| >= 254 && '|' !in f && '|' !in name
    ensures |Parts(f, name, t)| >= 255 && Parse(Strip(Cut(Parts(f, name, t)[..254]))) == None
  {
    hide Parse, Strip, Cut;
    CutBeforeBar(f, name, t, 254);
  }

  lemma PartsPlain(f: string, name: string, t: string)
    requires '\n' !in f && '\n' !in name && '\n' !in t && '\0' !in f && '\0' !in name && '\0' !in t
    requires forall k :: 0 <= k < |t| ==> !IsSpace(t[k])
    ensures var s := Parts(f, name, t); s != [] && '\n' !in s && '\0' !in s && !IsSpace(s[|s| - 1])
  {
    LastSolid(f, name, t);
  }

  lemma PartsBars(f: string, name: string, t: string)
    ensures var s, q := Parts(f, name, t), |f| + 1 + |name|;
      |s| == q + 1 + |t| && s[|f|] == '|' && s[q] == '|'
  {
  }

  lemma RowPlain(carry: nat, d: Field)
    requires Proper(d) && Plain(d)
    ensures var s := Row(carry, d); s != [] && '\n' !in s && '\0' !in s && !IsSpace(s[|s| - 1])
    ensures Parse(Strip(Cut(Row(carry, d)))) == Some(d)
  {
    hide Parse, Strip, Cut, Atoi, Itoa, Row;
    var f, t := Glued(carry, d);
    AtoiItoa(d.ftype);
    WholeLine(f, d.name, t);
    PartsPlain(f, d.name, t);
  }

  lemma ReadWhole(fields: Fields, carry: nat, d: Field, rest: string)
    requires Proper(d) && Plain(d) && |Row(carry, d)| <= 254
    ensures Loaded(fields, Row(carry, d) + "\n" + rest) == Loaded(fields[d.fid := d], rest)
  {
    hide Loaded, Row, Parse, Cut, Strip;
    RowPlain(carry, d);
    LineRead(Row(carry, d), Row(carry, d));
    LoadedRow(fields, Row(carry, d), d, rest);
  }

  /** What the first 254 characters of a field's line give when it is longer. */
  lemma RowCut(carry: nat, d: Field)
    requires Proper(d) && Plain(d) && |Row(carry, d)| >= 255
    ensures var p := Parse(Strip(Cut(Row(carry, d)[..254])));
      && (p == Some(d) <==> |Row(carry, d)| == 255 && d.ftype == 0)
      && (p.Some? ==> p.value.fid == d.fid && 2 <= Bars(Row(carry, d)[..254])) && 1 <= Bars(Row(carry, d)[..254])
  {
    hide Parse, Strip, Cut, Atoi, Itoa, Row, Parts, Bars;
    var f, t := Glued(carry, d);
    var s, q := Parts(f, d.name, t), |f| + 1 + |d.name|;
    PartsBars(f, d.name, t);
    BarAt(s[..254], |f|);
    if q < 254 {
      CutRow(f, d.name, t);
      ShorterType(d.ftype, 253 - q);
      TwoBars(s[..254], |f|, q);
    } else {
      CutEarly(f, d.name, t);
    }
  }

  // ----- counting bars

  ghost function Bars(s: string): nat {
    if s == [] then 0 else Bars(s[..|s| - 1]) + if s[|s| - 1] == '|' then 1 else 0
  }

  lemma {:induction false} BarsJoin(a: string, b: string)
    ensures Bars(a + b) == Bars(a) + Bars(b)
    decreases |b|
  {
    if b == [] {
      assert a + b == a;
    } else {
      BarsJoin(a, b[..|b| - 1]);
      assert (a + b)[..|a + b| - 1] == a + b[..|b| - 1];
    }
  }

  lemma {:induction false} NoBars(s: string)
    requires '|' !in s
    ensures Bars(s) == 0
    decreases |s|
  {
    if s != [] {
      NoBars(s[..|s| - 1]);
    }
  }

  lemma BarAt(s: string, p: nat)
    requires p < |s| && s[p] == '|'
    ensures Bars(s) == Bars(s[..p]) + 1 + Bars(s[p + 1..])
  {
    assert s == s[..p] + "|" + s[p + 1..];
    BarsJoin(s[..p] + "|", s[p + 1..]);
    BarsJoin(s[..p], "|");
    assert "|"[..0] == "";
  }

  lemma TwoBars(s: string, p: nat, q: nat)
    requires p < q < |s| && s[p] == '|' && s[q] == '|'
    ensures Bars(s) >= 2
  {
    BarAt(s, p);
    BarAt(s[p + 1..], q - p - 1);
  }

  lemma BarsSplit(s: string, n: nat)
    requires n <= |s|
    ensures Bars(s) == Bars(s[..n]) + Bars(s[n..])
  {
    assert s == s[..n] + s[n..];
    BarsJoin(s[..n], s[n..]);
  }

  // ----- the lines of a file, one after the other

  /** What the reader sees at a field's line. */
  function Ahead(carry: nat, d: Field, rest: string): string {
    Left(carry) + Print(d) + rest
  }

  lemma AheadFits(carry: nat, d: Field, rest: string)
    requires carry <= 1 && |Row(carry, d)| <= 254
    ensures |Row(carry, d)| == carry + |Line(d)| && Ahead(carry, d, rest) == Row(carry, d) + "\n" + rest
  {
    hide Line;
  }

  lemma AheadLong(carry: nat, d: Field, rest: string)
    requires carry <= 1 && |Row(carry, d)| >= 255
    ensures var text := Ahead(carry, d, rest);
      |Row(carry, d)| == carry + |Line(d)| && |text| >= 255 && text[..254] == Row(carry, d)[..254]
  {
    hide Line;
  }

  /** What is left when all but the digit of a type of 0 has been read. */
  lemma AheadZero(carry: nat, d: Field, rest: string)
    requires carry <= 1 && |Row(carry, d)| == 255 && d.ftype == 0
    ensures Ahead(carry, d, rest)[254..] == if |Line(d)| >= 255 then "0" + rest else "0" + "\n" + rest
  {
    LastZero(d);
    hide Line;
    if |Line(d)| >= 255 {
      TailLong(Left(carry), Line(d), rest);
    } else {
      TailShort(Left(carry), Line(d), rest);
    }
  }

  lemma LastZero(d: Field)
    requires d.ftype == 0
    ensures Line(d) != [] && Line(d)[|Line(d)| - 1] == '0'
  {
    ItoaSolid(0);
    hide Itoa;
    EndsIn(Itoa(d.fid) + "|" + d.name + "|", "0");
  }

  lemma EndsIn(a: string, b: string)
    requires |b| == 1
    ensures (a + b)[|a|] == b[0]
  {
  }

  lemma TailLong(a: string, s: string, rest: string)
    requires |a| + |s| == 255 <= |s| && s[|s| - 1] == '0'
    ensures (a + s[..255] + rest)[254..] == "0" + rest
  {
    assert a == "" && s[..255] == s;
    var text := s + rest;
    assert a + s + rest == text;
    assert text[254] == '0' && text[255..] == rest;
  }

  lemma TailShort(a: string, s: string, rest: string)
    requires |a| + |s| == 255 && s != [] && s[|s| - 1] == '0'
    ensures (a + (s + "\n") + rest)[254..] == "0" + "\n" + rest
  {
    var text := a + (s + "\n") + rest;
    assert text[254] == '0' && text[255] == '\n' && text[256..] == rest;
  }

  /** A long line is read in two: its first 254 characters on their own, and the
      rest of what was printed in front of the line after it. */
  lemma ReadLong(fields: Fields, carry: nat, d: Field, rest: string)
    requires '\n' !in d.name && carry <= 1 && |Row(carry, d)| >= 255
    ensures |Ahead(carry, d, rest)| >= 255
    ensures Loaded(fields, Ahead(carry, d, rest)) ==
      Loaded(Entered(fields, Row(carry, d)[..254]), Ahead(carry, d, rest)[254..])
  {
    hide Loaded, Entered, Row, Ahead;
    RowOneLine(carry, d);
    AheadLong(carry, d, rest);
    var text, s := Ahead(carry, d, rest), Row(carry, d);
    assert forall k :: 0 <= k < 254 ==> s[..254][k] == s[k] && s[k] in s;
    assert text == s[..254] + text[254..];
    LoadedCut(fields, s[..254], text[254..]);
  }

  lemma RowOneLine(carry: nat, d: Field)
    requires '\n' !in d.name
    ensures '\n' !in Row(carry, d)
  {
    ItoaPlain(d.fid);
    ItoaPlain(d.ftype);
  }

  lemma ZeroEntered(fields: Fields, rest: string)
    ensures Loaded(fields, "0" + "\n" + rest) == Loaded(fields, rest)
  {
    FirstChunk("0", rest);
    LineRead("0", "0" + "\n");
    assert Parse("0") == None;
    hide Loaded, ChunkLength, Parse, Cut, Strip;
    LoadedStep(fields, "0" + "\n" + rest);
  }

  /** A surviving field comes in, and the file goes on behind its line. */
  lemma SurvivorLine(fields: Fields, carry: nat, d: Field, rest: string)
    requires Proper(d) && carry <= 1 && Survives(carry, d)
    ensures Loaded(fields, Ahead(carry, d, rest)) ==
      Loaded(fields[d.fid := d], Left(if |Line(d)| >= 255 then 1 else 0) + rest)
  {
    hide Loaded, Ahead, Line, Parse, Strip, Cut, Bars, Proper;
    assert |Row(carry, d)| == carry + |Line(d)|;
    hide Row;
    if |Row(carry, d)| <= 254 {
      AheadFits(carry, d, rest);
      ReadWhole(fields, carry, d, rest);
      assert Left(0) + rest == rest;
    } else {
      ReadLong(fields, carry, d, rest);
      RowCut(carry, d);
      AheadZero(carry, d, rest);
      if |Line(d)| < 255 {
        ZeroEntered(fields[d.fid := d], rest);
        assert Left(0) + rest == rest;
      }
    }
  }

  lemma {:induction false} LoadedSurvivors(ds: seq<Field>, rest: string)
    requires AllProper(ds) && AllSurvive(ds)
    ensures Loaded(map[], FileOf(ds) + rest) == Loaded(ByFid(ds), Left(Carry(ds, |ds|)) + rest)
    decreases |ds|
  {
    hide Loaded, Print, Line, Survives, Proper;
    if ds == [] {
      assert FileOf(ds) + rest == rest && Left(0) + rest == rest;
    } else {
      var n := |ds| - 1;
      var front, d := ds[..n], ds[n];
      forall i | 0 <= i <= n
        ensures Carry(front, i) == Carry(ds, i)
      {
      }
      LoadedSurvivors(front, Print(d) + rest);
      assert FileOf(ds) + rest == FileOf(front) + (Print(d) + rest);
      AheadJoin(Carry(ds, n), d, rest);
      SurvivorLine(ByFid(front), Carry(ds, n), d, rest);
    }
  }

  // ----- what is lost stays lost

  lemma EnteredBars(fields: Fields, chunk: string)
    ensures Parse(Strip(Cut(chunk))).Some? ==> Bars(chunk) >= 2
  {
    var line := Strip(Cut(chunk));
    if Parse(line).Some? {
      var p := Index(line, '|', 0);
      var q := Index(line, '|', p + 1);
      hide Strip, Cut, Bars;
      StripCut(chunk);
      TwoBars(chunk, p, q);
    }
  }

  lemma StripCut(chunk: string)
    ensures Strip(Cut(chunk)) <= chunk
  {
  }

  /** Every two bars give at most one field. */
  lemma {:induction false} LoadedCount(fields: Fields, text: string)
    ensures 2 * |Loaded(fields, text)| <= 2 * |fields| + Bars(text)
    decreases |text|
  {
    if text != [] {
      var n := ChunkLength(text);
      var next := Entered(fields, text[..n]);
      hide ChunkLength, Bars;
      BarsSplit(text, n);
      EnteredBars(fields, text[..n]);
      EnteredSize(fields, text[..n]);
      hide Entered;
      LoadedCount(next, text[n..]);
    }
  }

  lemma EnteredSize(fields: Fields, chunk: string)
    ensures var next := Entered(fields, chunk);
      |next| == |fields| || (|next| == |fields| + 1 && Parse(Strip(Cut(chunk))).Some?)
  {
    hide Parse, Strip, Cut;
    match Parse(Strip(Cut(chunk)))
    case None =>
    case Some(d) =>
      var next := fields[d.fid := d];
      assert next.Keys == fields.Keys + {d.fid};
      assert |next| == |next.Keys| && |fields| == |fields.Keys|;
  }

  /** A field that is overwritten costs one. */
  lemma {:induction false} LoadedKeeps(fields: Fields, text: string, f: nat)
    requires f in fields
    ensures var r := Loaded(fields, text);
      (f in r && r[f] == fields[f]) || 2 * |r| + 2 <= 2 * |fields| + Bars(text)
    decreases |text|
  {
    if text != [] {
      var n := ChunkLength(text);
      var chunk := text[..n];
      var next := Entered(fields, chunk);
      hide ChunkLength, Bars, Parse, Strip, Cut;
      BarsSplit(text, n);
      EnteredBars(fields, chunk);
      EnteredSize(fields, chunk);
      LoadedKeeps(next, text[n..], f);
      if next[f] != fields[f] {
        OverwrittenSize(fields, chunk, f);
        LoadedCount(next, text[n..]);
      }
    }
  }

  lemma OverwrittenSize(fields: Fields, chunk: string, f: nat)
    requires f in fields && Entered(fields, chunk)[f] != fields[f]
    ensures |Entered(fields, chunk)| == |fields| && Parse(Strip(Cut(chunk))).Some?
  {
    hide Parse, Strip, Cut;
    var next := Entered(fields, chunk);
    assert next.Keys == fields.Keys;
    assert |next| == |next.Keys| && |fields| == |fields.Keys|;
  }

  lemma PrintBars(d: Field)
    requires Plain(d)
    ensures Bars(Print(d)) <= 2
  {
    hide Bars;
    LineBarCount(Itoa(d.fid), d.name, Itoa(d.ftype), d);
    BarsJoin(Line(d), "\n");
    NoBars("\n");
    var s := Line(d) + "\n";
    hide Line;
    BarsSplit(s, |Print(d)|);
    assert Print(d) == s[..|Print(d)|];
  }

  lemma LineBarCount(f: string, name: string, t: string, d: Field)
    requires Plain(d) && d.name == name && f == Itoa(d.fid) && t == Itoa(d.ftype)
    ensures Bars(Line(d)) == 2
  {
    ItoaPlain(d.fid);
    ItoaPlain(d.ftype);
    hide Itoa, Bars;
    NoBars(f);
    NoBars(name);
    NoBars(t);
    BarsJoin(f, "|");
    BarsJoin(f + "|", name);
    BarsJoin(f + "|" + name, "|");
    BarsJoin(f + "|" + name + "|", t);
    BarAt("|", 0);
    NoBars("|"[..0]);
    NoBars("|"[1..]);
  }

  lemma {:induction false} FileBars(ds: seq<Field>)
    requires forall i :: 0 <= i < |ds| ==> Plain(ds[i])
    ensures Bars(FileOf(ds)) <= 2 * |ds|
    decreases |ds|
  {
    hide Bars, Print, Plain;
    if ds == [] {
      NoBars("");
    } else {
      var n := |ds| - 1;
      FileBars(ds[..n]);
      PrintBars(ds[n]);
      BarsJoin(FileOf(ds[..n]), Print(ds[n]));
    }
  }

  lemma {:induction false} FileJoin(a: seq<Field>, b: seq<Field>)
    ensures FileOf(a + b) == FileOf(a) + FileOf(b)
    decreases |b|
  {
    hide Print;
    if b == [] {
      assert a + b == a;
    } else {
      var n := |b| - 1;
      FileJoin(a, b[..n]);
      assert (a + b)[..|a| + n] == a + b[..n] && (a + b)[|a| + n] == b[n];
      Regrouped(FileOf(a), FileOf(b[..n]), Print(b[n]));
    }
  }

  lemma Regrouped(a: string, b: string, c: string)
    ensures a + b + c == a + (b + c)
  {
  }

  lemma {:induction false} ByFidAt(ds: seq<Field>, i: nat)
    requires DistinctFids(ds) && i < |ds|
    ensures ds[i].fid in ByFid(ds) && ByFid(ds)[ds[i].fid] == ds[i]
    decreases |ds|
  {
    if i < |ds| - 1 {
      ByFidAt(ds[..|ds| - 1], i);
    }
  }

  lemma {:induction false} NotByFid(ds: seq<Field>, k: nat)
    requires forall i :: 0 <= i < |ds| ==> ds[i].fid != k
    ensures k !in ByFid(ds)
    decreases |ds|
  {
    if ds != [] {
      NotByFid(ds[..|ds| - 1], k);
    }
  }

  lemma {:induction false} ByFidSize(ds: seq<Field>)
    requires DistinctFids(ds)
    ensures |ByFid(ds)| == |ds|
    decreases |ds|
  {
    if ds != [] {
      var n := |ds| - 1;
      var front := ByFid(ds[..n]);
      ByFidSize(ds[..n]);
      NotByFid(ds[..n], ds[n].fid);
      assert ByFid(ds).Keys == front.Keys + {ds[n].fid};
      assert |ByFid(ds)| == |ByFid(ds).Keys| && |front| == |front.Keys|;
    }
  }

  lemma AheadBars(carry: nat, d: Field, rest: string)
    requires Plain(d)
    ensures Bars(Ahead(carry, d, rest)) <= 2 + Bars(rest)
  {
    hide Bars, Print;
    PrintBars(d);
    NoBars(Left(carry));
    BarsJoin(Left(carry), Print(d));
    BarsJoin(Left(carry) + Print(d), rest);
  }

  /** After a line that does not survive there are too few bars left for all fields
      to come, or its field has a wrong type. */
  lemma LostLine(fields: Fields, carry: nat, d: Field, rest: string)
    requires Proper(d) && Plain(d) && carry <= 1 && !Survives(carry, d) && d.fid !in fields
    ensures var r := Loaded(fields, Ahead(carry, d, rest));
      2 * |r| <= 2 * |fields| + 1 + Bars(rest) || (d.fid in r && r[d.fid] != d)
  {
    assert |Row(carry, d)| == carry + |Line(d)|;
    hide Loaded, Row, Ahead, Line, Proper, Bars, Parse, Strip, Cut;
    ReadLong(fields, carry, d, rest);
    RowCut(carry, d);
    AheadLong(carry, d, rest);
    AheadBars(carry, d, rest);
    var text, s := Ahead(carry, d, rest), Row(carry, d)[..254];
    BarsSplit(text, 254);
    var next := Entered(fields, s);
    match Parse(Strip(Cut(s)))
    case None =>
      LoadedCount(fields, text[254..]);
    case Some(d') =>
      EnteredSize(fields, s);
      LoadedKeeps(next, text[254..], d.fid);
  }

  /** The first field that does not survive. */
  lemma {:induction false} FirstLost(ds: seq<Field>) returns (n: nat)
    requires !AllSurvive(ds)
    ensures n < |ds| && AllSurvive(ds[..n]) && !Survives(Carry(ds, n), ds[n])
    decreases |ds|
  {
    hide Survives, Line;
    var m := |ds| - 1;
    var front := ds[..m];
    assert forall i :: 0 <= i < m ==> Carry(front, i) == Carry(ds, i) && front[i] == ds[i];
    if AllSurvive(front) {
      n := m;
    } else {
      n := FirstLost(front);
      assert front[..n] == ds[..n];
    }
  }

  lemma LostFile(ds: seq<Field>)
    requires AllProper(ds) && DistinctFids(ds) && !AllSurvive(ds) && forall i :: 0 <= i < |ds| ==> Plain(ds[i])
    ensures Loaded(map[], FileOf(ds)) != ByFid(ds)
  {
    hide Survives, Proper, Plain, Loaded, Print, Bars, Line, ByFid, FileOf, Ahead;
    var n := FirstLost(ds);
    var front, back := ds[..n], ds[n + 1..];
    LoadedBehind(ds, n);
    ByFidAt(ds, n);
    ByFidSize(ds);
    ByFidSize(front);
    NotByFid(front, ds[n].fid);
    FileBars(back);
    LostLine(ByFid(front), Carry(ds, n), ds[n], FileOf(back));
  }

  /** Behind `n` surviving fields the reader is at the next line. */
  lemma LoadedBehind(ds: seq<Field>, n: nat)
    requires AllProper(ds) && n < |ds| && AllSurvive(ds[..n])
    ensures Loaded(map[], FileOf(ds)) == Loaded(ByFid(ds[..n]), Ahead(Carry(ds, n), ds[n], FileOf(ds[n + 1..])))
  {
    hide Survives, Proper, Loaded, Print, Line, ByFid, FileOf, Ahead;
    var rest := FileOf(ds[n + 1..]);
    FileAt(ds[..n], ds[n], ds[n + 1..]);
    assert ds == ds[..n] + [ds[n]] + ds[n + 1..];
    LoadedSurvivors(ds[..n], Print(ds[n]) + rest);
    AheadJoin(Carry(ds, n), ds[n], rest);
  }

  lemma FileAt(a: seq<Field>, d: Field, b: seq<Field>)
    ensures FileOf(a + [d] + b) == FileOf(a) + (Print(d) + FileOf(b))
  {
    hide Print;
    FileJoin(a + [d], b);
    FileJoin(a, [d]);
    assert FileOf([d]) == Print(d);
  }

  lemma AheadJoin(carry: nat, d: Field, rest: string)
    ensures Left(carry) + (Print(d) + rest) == Ahead(carry, d, rest)
  {
    hide Print, Left;
  }

  /** Writing fields to a file and reading it gives them all back, and nothing else,
      exactly when they all survive. */
  lemma FileRoundTrip(ds: seq<Field>)
    requires AllProper(ds) && DistinctFids(ds)
    ensures Loaded(map[], FileOf(ds)) == ByFid(ds) <==> AllSurvive(ds)
  {
    hide Proper, Loaded, Print, Line, Plain;
    if AllSurvive(ds) {
      LoadedSurvivors(ds, "");
      assert FileOf(ds) + "" == FileOf(ds);
      var left := Left(Carry(ds, |ds|)) + "";
      if left != "" {
        LoadedOne(ByFid(ds), left);
      } else {
        LoadedNothing(ByFid(ds));
      }
    } else if forall i :: 0 <= i < |ds| ==> Plain(ds[i]) {
      LostFile(ds);
    } else {
      var i :| 0 <= i < |ds| && !Plain(ds[i]);
      ByFidAt(ds, i);
      NoFields();
      LoadedPlain(map[], FileOf(ds));
    }
  }

  // ----- dictionaries

  /** Every field is proper and at its own index. */
  ghost predicate Kept(slots: Slots) {
    InPlace(slots) && forall i :: 0 <= i < |slots| && slots[i].Some? ==> Proper(slots[i].value)
  }

  /** The fields in a dictionary's array, in order. */
  ghost function Listed(slots: Slots): seq<Field> {
    if slots == [] then []
    else Listed(slots[..|slots| - 1]) + if slots[|slots| - 1].Some? then [slots[|slots| - 1].value] else []
  }

  lemma {:induction false} ListedFields(slots: Slots)
    requires InPlace(slots)
    ensures FileText(slots) == FileOf(Listed(slots)) && FieldsOf(slots) == ByFid(Listed(slots))
    ensures DistinctFids(Listed(slots))
    ensures forall d :: d in Listed(slots) ==> d.fid < |slots| && slots[d.fid] == Some(d)
    decreases |slots|
  {
    hide Print;
    if slots != [] {
      var n := |slots| - 1;
      var front, last := slots[..n], slots[n];
      ListedFields(front);
      FieldsGrow(front, last);
      assert front + [last] == slots;
      if last.Some? {
        var ds := Listed(slots);
        assert ds[..|ds| - 1] == Listed(front);
      } else {
        assert Listed(slots) == Listed(front);
        assert FileText(front) + "" == FileText(front);
      }
    }
  }

  /** Writing a dictionary and reading the file into an empty one gives the same
      fields exactly when all of them survive. */
  lemma RoundTrip(slots: Slots)
    requires Kept(slots)
    ensures Loaded(map[], FileText(slots)) == FieldsOf(slots) <==> AllSurvive(Listed(slots))
  {
    hide FileText, FieldsOf, AllSurvive, Loaded, Proper;
    ListedFields(slots);
    assert forall i :: 0 <= i < |Listed(slots)| ==> Listed(slots)[i] in Listed(slots);
    FileRoundTrip(Listed(slots));
  }

  /** A file of one field: its name has no bar and no newline, and its line at most
      254 characters, or 255 when the type is 0. */
  lemma OneFieldRoundTrip(d: Field)
    requires Proper(d)
    ensures Loaded(map[], Print(d)) == map[d.fid := d] <==>
      Plain(d) && (|Line(d)| <= 254 || (|Line(d)| == 255 && d.ftype == 0))
  {
    hide Loaded, Print, Line, Plain, Proper;
    assert [d][..0] == [];
    assert FileOf([d]) == "" + Print(d) == Print(d);
    assert ByFid([d]) == map[d.fid := d];
    FileRoundTrip([d]);
    assert AllSurvive([d]) <==> Survives(Carry([d], 0), [d][0]);
  }

  function LongField(fid: nat): Field {
    Field(fid, seq(251, _ => 'a'), 0)
  }

  lemma LongFieldLine(fid: nat)
    requires fid < 10
    ensures Proper(LongField(fid)) && Plain(LongField(fid)) && |Line(LongField(fid))| == 255
  {
    assert |Digits(fid)| == 1 && |Digits(0)| == 1;
  }

  /** Two fields that come back each from a file of its own, but not from one file:
      what the first line leaves does not fit in with the second one. */
  lemma TwoLongLines() returns (d: Field, e: Field)
    ensures Proper(d) && Proper(e) && d.fid != e.fid
    ensures Loaded(map[], FileOf([d])) == ByFid([d]) && Loaded(map[], FileOf([e])) == ByFid([e])
    ensures Loaded(map[], FileOf([d, e])) != ByFid([d, e])
  {
    hide Line, Loaded, FileOf, ByFid, Proper, Plain;
    d, e := LongField(1), LongField(2);
    LongFieldLine(1);
    LongFieldLine(2);
    FileRoundTrip([d]);
    FileRoundTrip([e]);
    FileRoundTrip([d, e]);
    assert !Survives(Carry([d, e], 1), [d, e][1]);
  }
}
