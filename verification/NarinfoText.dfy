/**
 The narinfo text format (pkg/prepare/narinfo/narinfo.go): what String prints,
 what Parse reads back, and exactly which narinfos survive the round trip.
 */
module NarinfoText {
  import opened Sequences
  import opened Text

  datatype Key =
    StorePath | Url | Compression | FileHash | FileSize | NarHash | NarSize | References | Deriver | System | Sig

  /** A key as it is written at the start of its line. */
  function Name(k: Key): string
  {
    match k
    case StorePath => "StorePath"
    case Url => "URL"
    case Compression => "Compression"
    case FileHash => "FileHash"
    case FileSize => "FileSize"
    case NarHash => "NarHash"
    case NarSize => "NarSize"
    case References => "References"
    case Deriver => "Deriver"
    case System => "System"
    case Sig => "Sig"
  }

  /** The key a line's first part names, if it names one. */
  function KeyNamed(s: string): (k: Option<Key>)
  {
    if s == "StorePath" then Some(StorePath)
    else if s == "URL" then Some(Url)
    else if s == "Compression" then Some(Compression)
    else if s == "FileHash" then Some(FileHash)
    else if s == "FileSize" then Some(FileSize)
    else if s == "NarHash" then Some(NarHash)
    else if s == "NarSize" then Some(NarSize)
    else if s == "References" then Some(References)
    else if s == "Deriver" then Some(Deriver)
    else if s == "System" then Some(System)
    else if s == "Sig" then Some(Sig)
    else None
  }

  lemma NameNamesKey(k: Key)
    ensures KeyNamed(Name(k)) == Some(k)
    ensures '\n' !in Name(k) && ':' !in Name(k) && Name(k) != ""
    ensures !IsSpace(Name(k)[0])
  {
  }

  /** The words are those that are printed, and no others. */
  lemma KeyNamedIff(s: string, k: Key)
    ensures KeyNamed(s) == Some(k) <==> s == Name(k)
  {
    NameNamesKey(k);
    if KeyNamed(s).Some? {
      NamedByName(s);
    }
  }

  lemma NamedByName(s: string)
    requires KeyNamed(s).Some?
    ensures s == Name(KeyNamed(s).value)
  {
  }

  datatype Narinfo = Narinfo(
    storePath: string,
    url: string,
    compression: string,
    fileHash: string,
    fileSize: Int64,
    narHash: string,
    narSize: Int64,
    references: seq<string>,
    deriver: string,
    system: string,
    sig: string)

  const EMPTY: Narinfo := Narinfo("", "", "", "", 0, "", 0, [], "", "", "")

  // ---- printing ------------------------------------------------------------------

  /** A line a printer writes: always, or only when there is a value. */
  datatype Slot = Slot(key: Key, value: string, always: bool)

  function Line(key: Key, value: string): string
  {
    Name(key) + ": " + value + "\n"
  }

  predicate Shown(slot: Slot)
  {
    slot.always || slot.value != ""
  }

  function Render(slots: seq<Slot>): string
  {
    if slots == [] then ""
    else
      var last := slots[|slots| - 1];
      Render(slots[..|slots| - 1]) + (if Shown(last) then Line(last.key, last.value) else "")
  }

  function ValueOf(n: Narinfo, k: Key): string
  {
    match k
    case StorePath => n.storePath
    case Url => n.url
    case Compression => n.compression
    case FileHash => n.fileHash
    case FileSize => FormatInt(n.fileSize)
    case NarHash => n.narHash
    case NarSize => FormatInt(n.narSize)
    case References => Join(n.references, " ")
    case Deriver => n.deriver
    case System => n.system
    case Sig => n.sig
  }

  /** The keys in the order of their lines. */
  function KeyAt(i: nat): Key
  {
    if i == 0 then StorePath
    else if i == 1 then Url
    else if i == 2 then Compression
    else if i == 3 then FileHash
    else if i == 4 then FileSize
    else if i == 5 then NarHash
    else if i == 6 then NarSize
    else if i == 7 then References
    else if i == 8 then Deriver
    else if i == 9 then System
    else Sig
  }

  /** The lines of a narinfo; the last three are left out when they would be empty. */
  function SlotsOf(n: Narinfo): seq<Slot>
  {
    seq(11, i requires 0 <= i < 11 => Slot(KeyAt(i), ValueOf(n, KeyAt(i)), i < 8))
  }

  function Print(n: Narinfo): string
  {
    Render(SlotsOf(n))
  }

  lemma RenderStep(slots: seq<Slot>, i: nat)
    requires i < |slots|
    ensures Render(slots[..i + 1]) == Render(slots[..i])
      + (if Shown(slots[i]) then Line(slots[i].key, slots[i].value) else "")
  {
    assert slots[..i + 1][..i] == slots[..i];
  }

  /** The text after the first i lines. */
  function Printed(n: Narinfo, i: nat): string
    requires i <= 11
  {
    Render(SlotsOf(n)[..i])
  }

  lemma PrintedStep(n: Narinfo, i: nat, k: Key)
    requires i < 11 && KeyAt(i) == k
    ensures Printed(n, i + 1) == Printed(n, i) + (if i < 8 || ValueOf(n, k) != "" then Line(k, ValueOf(n, k)) else "")
    ensures Printed(n, 0) == "" && Printed(n, 11) == Print(n)
  {
    var slots := SlotsOf(n);
    assert slots[i] == Slot(k, ValueOf(n, k), i < 8);
    RenderStep(slots, i);
    assert slots[..11] == slots;
  }

  lemma LineIs(k: Key, front: string, value: string)
    requires Name(k) + ": " == front
    ensures Line(k, value) == front + value + "\n"
  {
    hide Name;
  }

  /** How each line begins. */
  lemma Fronts()
    ensures Name(StorePath) + ": " == "StorePath: " && Name(Url) + ": " == "URL: "
    ensures Name(Compression) + ": " == "Compression: " && Name(FileHash) + ": " == "FileHash: "
    ensures Name(FileSize) + ": " == "FileSize: " && Name(NarHash) + ": " == "NarHash: "
    ensures Name(NarSize) + ": " == "NarSize: " && Name(References) + ": " == "References: "
    ensures Name(Deriver) + ": " == "Deriver: " && Name(System) + ": " == "System: " && Name(Sig) + ": " == "Sig: "
  {
  }

  function LineIf(front: string, value: string): string
  {
    if value == "" then "" else front + value + "\n"
  }

  lemma PrintedNext(n: Narinfo, i: nat, k: Key, front: string)
    requires i < 11 && KeyAt(i) == k && Name(k) + ": " == front
    ensures Printed(n, i + 1) ==
            Printed(n, i) + if i < 8 then front + ValueOf(n, k) + "\n" else LineIf(front, ValueOf(n, k))
    ensures Printed(n, 0) == "" && Printed(n, 11) == Print(n)
  {
    PrintedStep(n, i, k);
    LineIs(k, front, ValueOf(n, k));
    hide Printed, Print, Name, KeyAt, ValueOf, Line;
    assert Printed(n, i) + "" == Printed(n, i);
  }

  /** The lines up to the references, which are always there. */
  lemma PrintedFirst(n: Narinfo)
    ensures Printed(n, 8) ==
            ("StorePath: " + n.storePath + "\n") + ("URL: " + n.url + "\n")
            + ("Compression: " + n.compression + "\n") + ("FileHash: " + n.fileHash + "\n")
            + ("FileSize: " + FormatInt(n.fileSize) + "\n") + ("NarHash: " + n.narHash + "\n")
            + ("NarSize: " + FormatInt(n.narSize) + "\n") + ("References: " + Join(n.references, " ") + "\n")
  {
    hide Printed, Print, Join, FormatInt, Name;
    Fronts();
    PrintedNext(n, 0, StorePath, "StorePath: ");
    NothingBefore("StorePath: " + n.storePath + "\n");
    PrintedNext(n, 1, Url, "URL: ");
    PrintedNext(n, 2, Compression, "Compression: ");
    PrintedNext(n, 3, FileHash, "FileHash: ");
    PrintedNext(n, 4, FileSize, "FileSize: ");
    PrintedNext(n, 5, NarHash, "NarHash: ");
    PrintedNext(n, 6, NarSize, "NarSize: ");
    PrintedNext(n, 7, References, "References: ");
  }

  /** The text of every narinfo, line by line. */
  lemma PrintIs(n: Narinfo)
    ensures Print(n) ==
            ("StorePath: " + n.storePath + "\n") + ("URL: " + n.url + "\n")
            + ("Compression: " + n.compression + "\n") + ("FileHash: " + n.fileHash + "\n")
            + ("FileSize: " + FormatInt(n.fileSize) + "\n") + ("NarHash: " + n.narHash + "\n")
            + ("NarSize: " + FormatInt(n.narSize) + "\n") + ("References: " + Join(n.references, " ") + "\n")
            + LineIf("Deriver: ", n.deriver) + LineIf("System: ", n.system) + LineIf("Sig: ", n.sig)
  {
    hide Printed, Print, Join, FormatInt, Name, LineIf;
    Fronts();
    PrintedFirst(n);
    PrintedNext(n, 8, Deriver, "Deriver: ");
    PrintedNext(n, 9, System, "System: ");
    PrintedNext(n, 10, Sig, "Sig: ");
  }

  lemma NothingBefore(s: string)
    ensures "" + s == s
  {
  }

  lemma EmptyReferences()
    ensures Line(References, "") == "References: \n"
  {
  }

  method String(n: Narinfo) returns (b: string)
    ensures b == Print(n)
  {
    hide Printed, Print, Line, Join, FormatInt;
    b := "";
    PrintedStep(n, 0, StorePath);
    b := b + Line(StorePath, n.storePath);
    assert b == Printed(n, 1);
    PrintedStep(n, 1, Url);
    b := b + Line(Url, n.url);
    assert b == Printed(n, 2);
    PrintedStep(n, 2, Compression);
    b := b + Line(Compression, n.compression);
    assert b == Printed(n, 3);
    PrintedStep(n, 3, FileHash);
    b := b + Line(FileHash, n.fileHash);
    assert b == Printed(n, 4);
    PrintedStep(n, 4, FileSize);
    b := b + Line(FileSize, FormatInt(n.fileSize));
    assert b == Printed(n, 5);
    PrintedStep(n, 5, NarHash);
    b := b + Line(NarHash, n.narHash);
    assert b == Printed(n, 6);
    PrintedStep(n, 6, NarSize);
    b := b + Line(NarSize, FormatInt(n.narSize));
    assert b == Printed(n, 7);
    PrintedStep(n, 7, References);
    EmptyReferences();
    assert |n.references| == 0 ==> Join(n.references, " ") == "" by { NothingJoined(n.references); }
    if |n.references| > 0 {
      b := b + Line(References, Join(n.references, " "));
    } else {
      b := b + "References: \n";
    }
    assert b == Printed(n, 8);
    PrintedStep(n, 8, Deriver);
    if n.deriver != "" {
      b := b + Line(Deriver, n.deriver);
    }
    assert b == Printed(n, 9);
    PrintedStep(n, 9, System);
    if n.system != "" {
      b := b + Line(System, n.system);
    }
    assert b == Printed(n, 10);
    PrintedStep(n, 10, Sig);
    if n.sig != "" {
      b := b + Line(Sig, n.sig);
    }
  }

  lemma NothingJoined(pieces: seq<string>)
    ensures pieces == [] ==> Join(pieces, " ") == ""
  {
  }

  // ---- parsing -------------------------------------------------------------------

  /** The assignment one key makes; empty references and derivers make none. */
  function Assign(n: Narinfo, k: Key, value: string): Narinfo
  {
    match k
    case StorePath => n.(storePath := value)
    case Url => n.(url := value)
    case Compression => n.(compression := value)
    case FileHash => n.(fileHash := value)
    case FileSize => n.(fileSize := ParseInt(value))
    case NarHash => n.(narHash := value)
    case NarSize => n.(narSize := ParseInt(value))
    case References => if value != "" then n.(references := Fields(value)) else n
    case Deriver => if value != "" then n.(deriver := value) else n
    case System => n.(system := value)
    case Sig => n.(sig := value)
  }

  /** An unknown key makes no assignment. */
  function Store(n: Narinfo, key: string, value: string): Narinfo
  {
    match KeyNamed(key)
    case Some(k) => Assign(n, k, value)
    case None => n
  }

  function ParseLine(n: Narinfo, line: string): Narinfo
  {
    var i := IndexOfColonSpace(line);
    if line == "" || i < 0 then n else Store(n, line[..i], line[i + 2..])
  }

  function ParseLines(lines: seq<string>): Narinfo
  {
    if lines == [] then EMPTY else ParseLine(ParseLines(lines[..|lines| - 1]), lines[|lines| - 1])
  }

  function ParseText(data: string): Narinfo
  {
    ParseLines(Lines(data))
  }

  method Parse(data: string) returns (n: Narinfo)
    ensures n == ParseText(data)
  {
    n := EMPTY;
    var lines := Lines(data);
    var i := 0;
    while i < |lines|
      invariant 0 <= i <= |lines|
      invariant n == ParseLines(lines[..i])
    {
      var line := lines[i];
      assert lines[..i + 1][..i] == lines[..i];
      i := i + 1;
      if line == "" {
        continue;
      }
      var at := IndexOfColonSpace(line);
      if at < 0 {
        continue;
      }
      n := Store(n, line[..at], line[at + 2..]);
    }
    assert lines[..i] == lines;
  }

  // ---- what is read from any text -------------------------------------------------

  /** What a line says of a key: the text after the first colon and space, if the text before it is the key. */
  function ValueFor(line: string, key: string): Option<string>
  {
    var i := IndexOfColonSpace(line);
    if i >= 0 && line[..i] == key then Some(line[i + 2..]) else None
  }

  /** The value in the last line of a key; where it is optional, in the last line that has one. */
  function LastValue(lines: seq<string>, key: string, optional: bool): string
  {
    if lines == [] then ""
    else
      var v := ValueFor(lines[|lines| - 1], key);
      if v.Some? && !(optional && v.value == "") then v.value else LastValue(lines[..|lines| - 1], key, optional)
  }

  datatype Field = Text(text: string) | Size(size: Int64) | List(list: seq<string>)

  function FieldOf(n: Narinfo, k: Key): Field
  {
    match k
    case StorePath => Text(n.storePath)
    case Url => Text(n.url)
    case Compression => Text(n.compression)
    case FileHash => Text(n.fileHash)
    case FileSize => Size(n.fileSize)
    case NarHash => Text(n.narHash)
    case NarSize => Size(n.narSize)
    case References => List(n.references)
    case Deriver => Text(n.deriver)
    case System => Text(n.system)
    case Sig => Text(n.sig)
  }

  /** Sizes are numbers, references a list, everything else is text. */
  function Meaning(k: Key, value: string): Field
  {
    if k.FileSize? || k.NarSize? then Size(ParseInt(value))
    else if k.References? then List(Fields(value))
    else Text(value)
  }

  lemma AssignField(n: Narinfo, j: Key, value: string, k: Key)
    ensures FieldOf(Assign(n, j, value), k) ==
      if j == k && !((k.References? || k.Deriver?) && value == "") then Meaning(k, value) else FieldOf(n, k)
  {
  }

  lemma ParsedLine(n: Narinfo, line: string, k: Key)
    ensures var v := ValueFor(line, Name(k));
      FieldOf(ParseLine(n, line), k) ==
        if v.Some? && !((k.References? || k.Deriver?) && v.value == "") then Meaning(k, v.value) else FieldOf(n, k)
  {
    hide Assign, KeyNamed, Name, Meaning, FieldOf;
    var i := IndexOfColonSpace(line);
    if i >= 0 {
      KeyNamedIff(line[..i], k);
      if KeyNamed(line[..i]).Some? {
        AssignField(n, KeyNamed(line[..i]).value, line[i + 2..], k);
      }
    }
  }

  lemma NothingRead(k: Key)
    ensures FieldOf(EMPTY, k) == Meaning(k, "")
  {
    NoFields();
  }

  /** Whatever the text, each field is what the last line of its key says. */
  lemma {:induction false} ParsedFields(lines: seq<string>, k: Key)
    ensures FieldOf(ParseLines(lines), k) == Meaning(k, LastValue(lines, Name(k), k.References? || k.Deriver?))
  {
    hide FieldOf, Meaning, Name, ValueFor, ParseLine;
    if lines == [] {
      NothingRead(k);
    } else {
      ParsedFields(lines[..|lines| - 1], k);
      ParsedLine(ParseLines(lines[..|lines| - 1]), lines[|lines| - 1], k);
    }
  }

  // ---- the round trip --------------------------------------------------------------

  /** Storing what each printed line holds, a carriage return at its end lost. */
  function StoreSlots(slots: seq<Slot>): Narinfo
  {
    if slots == [] then EMPTY
    else
      var before := StoreSlots(slots[..|slots| - 1]);
      var last := slots[|slots| - 1];
      if Shown(last) then Assign(before, last.key, DropCR(last.value)) else before
  }

  lemma DropCRAfter(front: string, value: string)
    requires front != "" && front[|front| - 1] != '\r'
    ensures DropCR(front + value) == front + DropCR(value)
  {
    if value == "" {
      assert front + value == front;
    } else {
      assert (front + value)[..|front + value| - 1] == front + value[..|value| - 1];
    }
  }

  lemma PrintedLine(n: Narinfo, key: Key, value: string)
    ensures DropCR(Name(key) + ": " + value) == Name(key) + ": " + DropCR(value)
    ensures ParseLine(n, DropCR(Name(key) + ": " + value)) == Assign(n, key, DropCR(value))
  {
    NameNamesKey(key);
    var name := Name(key);
    DropCRAfter(name + ": ", value);
    hide Name, KeyNamed, DropCR;
    var line := name + ": " + DropCR(value);
    KeyEndsAtColon(name, DropCR(value));
    assert line[..|name|] == name && line[|name| + 2..] == DropCR(value);
  }

  /** Reading rendered lines stores their values. */
  lemma {:induction false} ReadRendered(slots: seq<Slot>)
    requires forall i :: 0 <= i < |slots| ==> '\n' !in slots[i].value
    ensures LineScan(Render(slots)).piece == ""
    ensures ParseLines(LineScan(Render(slots)).done) == StoreSlots(slots)
  {
    hide Name, ParseLine, Assign;
    if slots != [] {
      var front, last := slots[..|slots| - 1], slots[|slots| - 1];
      ReadRendered(front);
      var scan := LineScan(Render(front));
      if Shown(last) {
        var w := Name(last.key) + ": " + last.value;
        assert Render(slots) == Render(front) + w + "\n";
        NameNamesKey(last.key);
        LineScanLine(Render(front), w);
        PrintedLine(ParseLines(scan.done), last.key, last.value);
        assert (scan.done + [DropCR(w)])[..|scan.done|] == scan.done;
      } else {
        assert Render(slots) == Render(front);
      }
    }
  }

  ghost predicate NewlineFree(n: Narinfo)
  {
    && '\n' !in n.storePath && '\n' !in n.url && '\n' !in n.compression && '\n' !in n.fileHash && '\n' !in n.narHash
    && '\n' !in n.deriver && '\n' !in n.system && '\n' !in n.sig
    && forall r :: r in n.references ==> '\n' !in r
  }

  lemma ValueIsPlain(n: Narinfo, k: Key)
    requires NewlineFree(n)
    ensures '\n' !in ValueOf(n, k)
  {
    FormatIntPlain(n.fileSize, '\n');
    FormatIntPlain(n.narSize, '\n');
    JoinWithout(n.references, " ", '\n');
  }

  /** What is left of a narinfo after it was printed and parsed. */
  function Reread(n: Narinfo): Narinfo
  {
    Narinfo(DropCR(n.storePath), DropCR(n.url), DropCR(n.compression), DropCR(n.fileHash), n.fileSize,
            DropCR(n.narHash), n.narSize, Fields(DropCR(Join(n.references, " "))),
            DropCR(n.deriver), DropCR(n.system), DropCR(n.sig))
  }

  /** What the first i lines store. */
  function Stored(n: Narinfo, i: nat): Narinfo
    requires i <= 11
  {
    StoreSlots(SlotsOf(n)[..i])
  }

  lemma StoredStep(n: Narinfo, i: nat, k: Key)
    requires i < 11 && KeyAt(i) == k
    ensures Stored(n, i + 1) ==
            if i < 8 || ValueOf(n, k) != "" then Assign(Stored(n, i), k, DropCR(ValueOf(n, k))) else Stored(n, i)
    ensures Stored(n, 0) == EMPTY && Stored(n, 11) == StoreSlots(SlotsOf(n))
  {
    var slots := SlotsOf(n);
    assert slots[i] == Slot(k, ValueOf(n, k), i < 8);
    assert slots[..i + 1][..i] == slots[..i];
    assert slots[..11] == slots;
  }

  lemma SizesAreKept(x: Int64)
    ensures ParseInt(DropCR(FormatInt(x))) == x
  {
    FormatIntTrimmed(x);
    ParseFormat(x);
  }

  lemma StoredMandatory(n: Narinfo)
    ensures Stored(n, 7) == Reread(n).(references := [], deriver := "", system := "", sig := "")
  {
    hide Stored, StoreSlots, SlotsOf, FormatInt, ParseInt, Join, Fields;
    SizesAreKept(n.fileSize);
    SizesAreKept(n.narSize);
    StoredStep(n, 0, StorePath);
    StoredStep(n, 1, Url);
    StoredStep(n, 2, Compression);
    StoredStep(n, 3, FileHash);
    StoredStep(n, 4, FileSize);
    StoredStep(n, 5, NarHash);
    StoredStep(n, 6, NarSize);
  }

  lemma StoredSlots(n: Narinfo)
    ensures StoreSlots(SlotsOf(n)) == Reread(n)
  {
    hide Stored, StoreSlots, SlotsOf, FormatInt, ParseInt, Join, Fields;
    StoredMandatory(n);
    NoFields();
    StoredStep(n, 7, References);
    StoredStep(n, 8, Deriver);
    StoredStep(n, 9, System);
    StoredStep(n, 10, Sig);
  }

  lemma NoFields()
    ensures Fields("") == []
  {
  }

  /** Parsing the printed text of a narinfo whose values hold no newline. */
  lemma ParsePrint(n: Narinfo)
    requires NewlineFree(n)
    ensures ParseText(Print(n)) == Reread(n)
  {
    forall k: Key
      ensures '\n' !in ValueOf(n, k)
    {
      ValueIsPlain(n, k);
    }
    ReadRendered(SlotsOf(n));
    StoredSlots(n);
  }

  /** Whatever text is parsed, no value holds a newline and no reference is empty or holds white space. */
  lemma {:induction false} ParsedIsClean(lines: seq<string>)
    requires forall l :: l in lines ==> '\n' !in l
    ensures NewlineFree(ParseLines(lines))
    ensures forall r :: r in ParseLines(lines).references ==> IsField(r)
  {
    hide IsField;
    if lines != [] {
      hide NewlineFree;
      var line := lines[|lines| - 1];
      assert line in lines;
      ParsedIsClean(lines[..|lines| - 1]);
      var i := IndexOfColonSpace(line);
      hide KeyNamed, Assign, IndexOfColonSpace;
      if line != "" && i >= 0 && KeyNamed(line[..i]).Some? {
        AssignIsClean(ParseLines(lines[..|lines| - 1]), KeyNamed(line[..i]).value, line[i + 2..]);
      }
    }
  }

  lemma AssignIsClean(n: Narinfo, k: Key, value: string)
    requires NewlineFree(n) && (forall r :: r in n.references ==> IsField(r)) && '\n' !in value
    ensures NewlineFree(Assign(n, k, value)) && forall r :: r in Assign(n, k, value).references ==> IsField(r)
  {
    FieldsAreFields(value);
    assert IsSpace('\n');
    hide Fields, ParseInt;
  }

  predicate NoFinalCR(s: string)
  {
    s == "" || s[|s| - 1] != '\r'
  }

  /** The narinfos whose text says all there is to know about them. */
  ghost predicate Printable(n: Narinfo)
  {
    && NewlineFree(n)
    && NoFinalCR(n.storePath) && NoFinalCR(n.url) && NoFinalCR(n.compression) && NoFinalCR(n.fileHash)
      && NoFinalCR(n.narHash)
    && NoFinalCR(n.deriver) && NoFinalCR(n.system) && NoFinalCR(n.sig)
    && forall r :: r in n.references ==> IsField(r)
  }

  lemma JoinedFieldsEnd(pieces: seq<string>)
    requires forall p :: p in pieces ==> IsField(p)
    ensures pieces != [] ==> Join(pieces, " ") != "" && IsTrimmed(Join(pieces, " "))
    ensures DropCR(Join(pieces, " ")) == Join(pieces, " ")
  {
    if pieces != [] {
      var first, last := pieces[0], pieces[|pieces| - 1];
      assert first in pieces && last in pieces;
      assert last[|last| - 1] in last && first[0] in first;
      JoinStarts(pieces);
    }
  }

  lemma {:induction false} JoinStarts(pieces: seq<string>)
    requires pieces != [] && pieces[0] != ""
    ensures Join(pieces, " ") != "" && Join(pieces, " ")[0] == pieces[0][0]
  {
    if |pieces| > 1 {
      JoinStarts(pieces[..|pieces| - 1]);
    }
  }

  /** A narinfo is read back as it was exactly when it is printable. */
  lemma RoundTripIff(n: Narinfo)
    ensures ParseText(Print(n)) == n <==> Printable(n)
  {
    if ParseText(Print(n)) == n {
      LinesClean(Print(n));
      ParsedIsClean(Lines(Print(n)));
      ParsePrint(n);
      forall s | s in {n.storePath, n.url, n.compression, n.fileHash, n.narHash, n.deriver, n.system, n.sig}
        ensures NoFinalCR(s)
      {
        assert DropCR(s) == s;
      }
    }
    if Printable(n) {
      ParsePrint(n);
      JoinedFieldsEnd(n.references);
      FieldsJoin(n.references);
    }
  }
}
