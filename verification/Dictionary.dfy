/** The field dictionary of dictionary.c: a sparse array that grows with the
    identifiers, its file writer, and the parser that works in its line buffer. */
module Dictionary {
  import opened DictionaryFile
  import opened DictionaryText
  import opened Options

  // ----- the line buffer

  ghost function CStr(b: string, i: nat): string
    requires i <= |b|
  {
    b[i..Index(b, '\0', i)]
  }

  /** fgets with a buffer size of 255. */
  method Fgets(buf: array<char>, text: string) returns (rest: string)
    requires buf.Length == 256 && text != []
    modifies buf
    ensures rest == text[ChunkLength(text)..]
    ensures buf[..ChunkLength(text)] == text[..ChunkLength(text)] && ChunkLength(text) <= 254
    ensures buf[ChunkLength(text)] == '\0'
  {
    var n := ChunkLength(text);
    var i := 0;
    while i < n
      invariant 0 <= i <= n <= 254 && buf[..i] == text[..i]
    {
      buf[i] := text[i];
      i := i + 1;
    }
    buf[n] := '\0';
    rest := text[n..];
  }

  /** Cuts off white space at the end, one character at a time. `len` is the string's length. */
  method Length(buf: array<char>, ghost line: string) returns (len: nat)
    requires |line| < buf.Length && buf[..|line|] == line && buf[|line|] == '\0' && '\0' !in line
    ensures len == |line|
  {
    assert forall k :: 0 <= k < |line| ==> line[k] in line && buf[k] == line[k];
    len := 0;
    while buf[len] != '\0'
      invariant 0 <= len <= |line|
      decreases |line| - len
    {
      len := len + 1;
    }
  }

  method StripTrailing(buf: array<char>, ghost line: string)
    requires |line| < buf.Length && buf[..|line|] == line && buf[|line|] == '\0' && '\0' !in line
    modifies buf
    ensures var r := Strip(line); buf[..|r|] == r && buf[|r|] == '\0'
  {
    var len := Length(buf, line);
    while len > 0 && IsSpace(buf[len - 1])
      invariant 0 <= len <= |line| && buf[len] == '\0' && buf[..len] == line[..len] && Strip(line[..len]) == Strip(line)
    {
      assert line[..len][..len - 1] == line[..len - 1];
      buf[len - 1] := '\0';
      len := len - 1;
    }
  }

  /** Replaces the next bar by NUL and gives the index after it. */
  method GetNextDelim(buf: array<char>, c: nat) returns (r: nat)
    requires c <= buf.Length && Index(buf[..], '|', c) < buf.Length
    modifies buf
    ensures r == Index(old(buf[..]), '|', c) + 1 && buf[..] == old(buf[..])[r - 1 := '\0']
  {
    r := c;
    while buf[r] != '|'
      invariant c <= r <= Index(buf[..], '|', c) && buf[..] == old(buf[..])
      decreases buf.Length - r
    {
      r := r + 1;
    }
    buf[r] := '\0';
    r := r + 1;
  }

  /** strchr and strrchr on the string in the buffer find two different bars. */
  method ValidateDelims(buf: array<char>, ghost line: string) returns (ok: bool)
    requires |line| < buf.Length && buf[..|line|] == line && buf[|line|] == '\0' && '\0' !in line
    ensures ok <==> Parse(line).Some?
  {
    assert forall k :: 0 <= k < |line| ==> line[k] in line && buf[k] == line[k];
    var i, first, last := 0, -1, -1;
    while buf[i] != '\0'
      invariant 0 <= i <= |line| && -1 <= first <= last < i
      invariant first == -1 <==> last == -1
      invariant forall k :: 0 <= k < (if first == -1 then i else first) ==> line[k] != '|'
      invariant forall k :: last < k < i ==> line[k] != '|'
      invariant first != -1 ==> line[first] == '|' && line[last] == '|'
      decreases |line| - i
    {
      if buf[i] == '|' {
        first, last := if first == -1 then i else first, i;
      }
      i := i + 1;
    }
    ok := first != -1 && first != last;
    if first != -1 {
      IndexIs(line, '|', 0, first);
    }
  }

  /** The C string from `i` on, as atoi or strdup read it. */
  method ReadString(buf: array<char>, i: nat) returns (s: string)
    requires i <= buf.Length && Index(buf[..], '\0', i) < buf.Length
    ensures s == CStr(buf[..], i)
  {
    s := [];
    var k := i;
    while buf[k] != '\0'
      invariant i <= k <= Index(buf[..], '\0', i) && s == buf[i..k]
      decreases buf.Length - k
    {
      s := s + [buf[k]];
      k := k + 1;
    }
  }

  /** Splits the line in the buffer at its bars and reads the three parts. */
  method ParseBuffer(buf: array<char>, ghost line: string) returns (d: Field)
    requires |line| < buf.Length && buf[..|line|] == line && buf[|line|] == '\0' && '\0' !in line && Parse(line).Some?
    modifies buf
    ensures Parse(line) == Some(d)
  {
    hide Index, CStr, Atoi;
    ghost var b := buf[..];
    ghost var p, q := BarsIn(b, line);
    var name := GetNextDelim(buf, 0);
    AfterFirst(b, line, p, q);
    var ftype := GetNextDelim(buf, 0);
    AfterSecond(b, line, p, q);
    var s := ReadString(buf, 0);
    var n := ReadString(buf, name);
    var t := ReadString(buf, ftype);
    d := Field(Atoi(s) % 65536, n, Atoi(t));
  }

  ghost predicate Holds(b: string, line: string) {
    |line| < |b| && b[..|line|] == line && b[|line|] == '\0' && '\0' !in line
  }

  lemma BarsIn(b: string, line: string) returns (p: nat, q: nat)
    requires Holds(b, line) && Parse(line).Some?
    ensures p == Index(line, '|', 0) == Index(b, '|', 0) && q == Index(line, '|', p + 1) == Index(b, '|', p + 1)
    ensures p < q < |line|
  {
    p := Index(line, '|', 0);
    q := Index(line, '|', p + 1);
    assert forall k :: 0 <= k < |line| ==> b[k] == line[k];
    IndexIs(b, '|', 0, p);
    IndexIs(b, '|', p + 1, q);
  }

  /** The second search starts over and runs past the NUL that the first one left. */
  lemma AfterFirst(b: string, line: string, p: nat, q: nat)
    requires Holds(b, line) && p < q < |line| && p == Index(b, '|', 0) && q == Index(b, '|', p + 1)
    ensures Index(b[p := '\0'], '|', 0) == q
  {
    IndexIs(b[p := '\0'], '|', 0, q);
  }

  lemma AfterSecond(b: string, line: string, p: nat, q: nat)
    requires Holds(b, line) && p < q < |line| && p == Index(b, '|', 0) && q == Index(b, '|', p + 1)
    ensures var b' := b[p := '\0'][q := '\0'];
      && Index(b', '\0', 0) == p && Index(b', '\0', p + 1) == q && Index(b', '\0', q + 1) == |line|
      && CStr(b', 0) == line[..p] && CStr(b', p + 1) == line[p + 1..q] && CStr(b', q + 1) == line[q + 1..]
  {
    var b' := b[p := '\0'][q := '\0'];
    assert forall k :: 0 <= k < |line| ==> b[k] == line[k] && line[k] in line;
    IndexIs(b', '\0', 0, p);
    IndexIs(b', '\0', p + 1, q);
    IndexIs(b', '\0', q + 1, |line|);
  }

  // ----- the dictionary

  class Dictionary {
    var dict: array?<Option<Field>>
    var maxFid: nat
    /** Descriptors ever added. */
    var size: nat

    constructor ()
      ensures Valid() && Fields() == map[] && dict == null && maxFid == 0
    {
      dict, maxFid, size := null, 0, 0;
    }

    ghost function Slots(): Slots
      reads this, dict
    {
      if dict == null then [] else dict[..]
    }

    /** Once there is an array, it reaches beyond the largest identifier. */
    ghost predicate Valid()
      reads this, dict
    {
      Kept(Slots()) && (dict != null ==> maxFid < dict.Length)
    }

    ghost function Fields(): Fields
      reads this, dict
    {
      FieldsOf(Slots())
    }

    /** Grows the array to 100 more than the identifier when it is too short, copying what is there. */
    method EnsureCapacity(fid: nat)
      requires Valid() && dict != null
      modifies this
      ensures Valid() && Fields() == old(Fields()) && dict != null && fid < dict.Length
      ensures (dict == old(dict) || fresh(dict))
      ensures maxFid == (if fid > old(maxFid) then fid else old(maxFid)) && size == old(size)
      ensures dict.Length == if fid + 1 > old(dict.Length) then fid + 100 else old(dict.Length)
    {
      if fid > maxFid {
        maxFid := fid;
      }
      if fid + 1 > dict.Length {
        var newArray := new Option<Field>[fid + 100](_ => None);
        var i := 0;
        while i < dict.Length
          invariant 0 <= i <= dict.Length && fresh(newArray)
          invariant newArray[..i] == dict[..i] && forall k :: i <= k < newArray.Length ==> newArray[k] == None
          modifies newArray
        {
          newArray[i] := dict[i];
          i := i + 1;
        }
        FieldsPadded(dict[..], newArray[..]);
        dict := newArray;
      }
    }

    method CreateDictArray()
      requires Valid() && dict == null
      modifies this
      ensures Valid() && Fields() == old(Fields()) && dict != null && fresh(dict) && dict.Length == maxFid + 1
      ensures maxFid == old(maxFid) && size == old(size)
    {
      dict := new Option<Field>[maxFid + 1](_ => None);
      FieldsPadded([], dict[..]);
    }

    method CreateFieldDescriptor(fid: nat, name: string, ftype: int)
      requires Valid() && Proper(Field(fid, name, ftype))
      modifies this, dict
      ensures Valid() && Fields() == old(Fields())[fid := Field(fid, name, ftype)] && size == old(size) + 1
      ensures dict != null && (dict == old(dict) || fresh(dict)) && maxFid >= old(maxFid) && maxFid >= fid
    {
      if dict == null {
        CreateDictArray();
      }
      EnsureCapacity(fid);
      FieldsSet(dict[..], fid, Field(fid, name, ftype));
      dict[fid] := Some(Field(fid, name, ftype));
      size := size + 1;
    }

    /** Before the array exists this only notes its later size. */
    method SetMaxFid(max: nat)
      requires Valid()
      modifies this
      ensures Valid() && Fields() == old(Fields()) && (dict == old(dict) || fresh(dict)) && size == old(size)
      ensures dict == null <==> old(dict) == null
      ensures maxFid == if old(dict) == null || max % 65536 > old(maxFid) then max % 65536 else old(maxFid)
    {
      if dict != null {
        EnsureCapacity(max % 65536);
      } else {
        maxFid := max % 65536;
      }
    }

    method WriteToFile() returns (text: string)
      requires Valid()
      ensures text == FileText(Slots())
    {
      text := "";
      if dict == null {
        return;
      }
      var i := 0;
      while i < dict.Length
        invariant 0 <= i <= dict.Length && text == FileText(dict[..i])
      {
        assert dict[..i + 1][..i] == dict[..i];
        if dict[i].Some? {
          text := text + Print(dict[i].value);
        }
        i := i + 1;
      }
      assert dict[..i] == dict[..];
    }

    method PopulateFromFile(file: string)
      requires Valid()
      modifies this, dict
      ensures Valid() && Fields() == Loaded(old(Fields()), file) && (dict == old(dict) || fresh(dict))
    {
      hide FieldsOf, Entered, ChunkLength;
      var text := file;
      var lineBuffer := new char[256](_ => '\0');
      while text != []
        invariant Valid() && fresh(lineBuffer) && (dict == old(dict) || fresh(dict))
        invariant Loaded(Fields(), text) == Loaded(old(Fields()), file)
        decreases |text|
      {
        text := EnterLine(lineBuffer, text);
      }
    }

    /** Reads one line into the buffer and adds its field; a line that is not valid is skipped. */
    method EnterLine(lineBuffer: array<char>, text: string) returns (rest: string)
      requires Valid() && lineBuffer.Length == 256 && text != []
      modifies this, dict, lineBuffer
      ensures Valid() && (dict == old(dict) || fresh(dict))
      ensures rest == text[ChunkLength(text)..] && Fields() == Entered(old(Fields()), text[..ChunkLength(text)])
    {
      hide FieldsOf, ChunkLength, Parse, Strip;
      rest := Fgets(lineBuffer, text);
      ghost var chunk := text[..ChunkLength(text)];
      ghost var line := Cut(chunk);
      CutHolds(lineBuffer[..], chunk);
      StripTrailing(lineBuffer, line);
      StripNoNul(line);
      var ok := ValidateDelims(lineBuffer, Strip(line));
      if ok {
        var d := ParseBuffer(lineBuffer, Strip(line));
        ParseProper(Strip(line));
        CreateFieldDescriptor(d.fid, d.name, d.ftype);
      }
    }
  }

  lemma CutHolds(b: string, chunk: string)
    requires |chunk| < |b| && b[..|chunk|] == chunk && b[|chunk|] == '\0'
    ensures Holds(b, Cut(chunk))
  {
    var n := Index(chunk, '\0', 0);
    assert b[..n] == chunk[..n];
    assert n < |chunk| ==> b[n] == chunk[n];
  }

  lemma ParseProper(line: string)
    requires '\0' !in line && Parse(line).Some?
    ensures Proper(Parse(line).value)
  {
    assert forall k :: 0 <= k < |line| ==> line[k] in line;
  }

  lemma StripNoNul(line: string)
    requires '\0' !in line
    ensures '\0' !in Strip(line) && |Strip(line)| <= |line|
  {
    var r := Strip(line);
    assert r <= line;
    assert forall k :: 0 <= k < |r| ==> r[k] == line[k] && line[k] in line;
  }

  /** A dictionary written to a file and read into a new one. */
  method WriteAndPopulate(d: Dictionary) returns (copy: Dictionary)
    requires d.Valid()
    ensures fresh(copy) && copy.Valid() && copy.Fields() == Loaded(map[], FileText(d.Slots()))
    ensures PlainNames(copy.Fields())
    ensures copy.Fields() == d.Fields() <==> AllSurvive(Listed(d.Slots()))
  {
    hide Kept, FieldsOf, PlainNames, AllSurvive, Listed;
    var text := d.WriteToFile();
    RoundTrip(d.Slots());
    NoFields();
    LoadedPlain(map[], text);
    copy := new Dictionary();
    copy.PopulateFromFile(text);
  }

  lemma FieldsPadded(slots: Slots, longer: Slots)
    requires |slots| <= |longer| && longer[..|slots|] == slots
    requires forall k :: |slots| <= k < |longer| ==> longer[k] == None
    ensures FieldsOf(longer) == FieldsOf(slots) && (Kept(slots) ==> Kept(longer))
  {
    assert forall k :: 0 <= k < |slots| ==> longer[k] == slots[k];
  }

  lemma FieldsSet(slots: Slots, fid: nat, d: Field)
    requires fid < |slots| && d.fid == fid && Proper(d) && Kept(slots)
    ensures FieldsOf(slots[fid := Some(d)]) == FieldsOf(slots)[fid := d] && Kept(slots[fid := Some(d)])
  {
  }
}
