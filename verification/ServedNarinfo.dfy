/**
 From narinfo text to manifest annotations and back to text: ParseAeroflareMetadata
 (pkg/oci/oci.go), the proxy's serveNativeNarinfo (pkg/proxy/proxy_server.go), the
 Worker's generateNarinfo (proxy/no-webui-native/worker.js) and PullOCINativeManifest
 (pkg/oci/network.go). For each reader: exactly which narinfos it gives back.
 */
module ServedNarinfo {
  import opened Sequences
  import opened Text
  import opened NarinfoText

  type Annotations = map<string, string>

  // ---- text to annotations ----------------------------------------------------------

  function Lower(c: char): char
  {
    if 'A' <= c <= 'Z' then c - 'A' + 'a' else c
  }

  function ToLower(s: string): string
  {
    seq(|s|, i requires 0 <= i < |s| => Lower(s[i]))
  }

  /** What one line of the text contributes. */
  datatype Entry = Skip | Invalid | Entry(key: string, value: string)

  function EntryOf(text: string): Entry
  {
    var line := TrimSpace(text);
    var i := IndexOf(line, ':');
    if line == "" then Skip
    else if i == |line| then Invalid
    else Entry("aeroflare." + ToLower(TrimSpace(line[..i])), TrimSpace(line[i + 1..]))
  }

  function AnnotationsOf(lines: seq<string>): Option<Annotations>
  {
    if lines == [] then Some(map[])
    else
      match AnnotationsOf(lines[..|lines| - 1])
      case None => None
      case Some(before) =>
        match EntryOf(lines[|lines| - 1])
        case Skip => Some(before)
        case Invalid => None
        case Entry(key, value) => Some(before[key := value])
  }

  lemma {:induction false} InvalidLineFails(lines: seq<string>, i: nat)
    requires i <= |lines| && AnnotationsOf(lines[..i]).None?
    ensures AnnotationsOf(lines).None?
  {
    if i < |lines| {
      var front := lines[..|lines| - 1];
      assert front[..i] == lines[..i];
      InvalidLineFails(front, i);
    } else {
      assert lines[..i] == lines;
    }
  }

  // ---- what any lines give ----------------------------------------------------------

  lemma LowerIs(c: char)
    ensures Lower(c) as int == c as int + if 'A' <= c <= 'Z' then 32 else 0
  {
  }

  /** The line, trimmed, parts at its first colon into this key, in lower case, and this value. */
  ghost predicate Says(line: string, key: string, value: string)
  {
    exists k, v :: TrimSpace(line) == k + ":" + v && ':' !in k
      && key == "aeroflare." + ToLower(TrimSpace(k)) && value == TrimSpace(v)
  }

  ghost predicate HasNoColon(line: string)
  {
    TrimSpace(line) != "" && ':' !in TrimSpace(line)
  }

  lemma EntryIs(line: string, key: string, value: string)
    ensures EntryOf(line) == Entry(key, value) <==> Says(line, key, value)
    ensures EntryOf(line).Invalid? <==> HasNoColon(line)
  {
    hide TrimSpace, ToLower;
    var t := TrimSpace(line);
    var i := IndexOf(t, ':');
    assert t[..i] + t[i..] == t;
    if i < |t| {
      assert t == t[..i] + ":" + t[i + 1..];
    }
    forall k, v | t == k + ":" + v && ':' !in k
      ensures i == |k| && t[..i] == k && t[i + 1..] == v
    {
      IndexAfter(k, ':', v);
      assert k + [':'] + v == t;
    }
  }

  /** The value of a key is the one in the last line that says something of it. */
  ghost predicate SaidLast(lines: seq<string>, key: string, value: string)
  {
    exists i :: 0 <= i < |lines| && Says(lines[i], key, value)
      && forall j, v :: i < j < |lines| ==> !Says(lines[j], key, v)
  }

  /**
   Whatever the lines, they are refused exactly if one of them, not blank, has no
   colon, and otherwise each key has the value in its last line.
   */
  lemma {:induction false} AnnotationsIff(lines: seq<string>)
    ensures AnnotationsOf(lines).None? <==> exists i :: 0 <= i < |lines| && HasNoColon(lines[i])
    ensures AnnotationsOf(lines).Some? ==>
      forall key, value :: key in AnnotationsOf(lines).value && AnnotationsOf(lines).value[key] == value <==>
        SaidLast(lines, key, value)
  {
    if lines != [] {
      hide EntryOf, Says, HasNoColon;
      var n := |lines| - 1;
      AnnotationsIff(lines[..n]);
      LastLineDecides(lines, n);
    }
  }

  lemma LastLineDecides(lines: seq<string>, n: nat)
    requires n == |lines| - 1
    requires AnnotationsOf(lines[..n]).None? <==> exists i :: 0 <= i < n && HasNoColon(lines[..n][i])
    requires AnnotationsOf(lines[..n]).Some? ==>
      forall key, value ::
        key in AnnotationsOf(lines[..n]).value && AnnotationsOf(lines[..n]).value[key] == value <==>
          SaidLast(lines[..n], key, value)
    ensures AnnotationsOf(lines).None? <==> exists i :: 0 <= i < |lines| && HasNoColon(lines[i])
    ensures AnnotationsOf(lines).Some? ==>
      forall key, value :: key in AnnotationsOf(lines).value && AnnotationsOf(lines).value[key] == value <==>
        SaidLast(lines, key, value)
  {
    hide EntryOf, Says, HasNoColon, SaidLast;
    forall key, value
      ensures SaidLast(lines, key, value) <==>
        EntryOf(lines[n]) == Entry(key, value)
        || (!(EntryOf(lines[n]).Entry? && EntryOf(lines[n]).key == key) && SaidLast(lines[..n], key, value))
    {
      SaidByLast(lines, n, key, value);
    }
    EntryIs(lines[n], "", "");
    assert forall i :: 0 <= i < n ==> lines[..n][i] == lines[i];
  }

  lemma SaidByLast(lines: seq<string>, n: nat, key: string, value: string)
    requires n == |lines| - 1
    ensures SaidLast(lines, key, value) <==>
      EntryOf(lines[n]) == Entry(key, value)
      || (!(EntryOf(lines[n]).Entry? && EntryOf(lines[n]).key == key) && SaidLast(lines[..n], key, value))
  {
    hide EntryOf, Says;
    forall v
      ensures EntryOf(lines[n]) == Entry(key, v) <==> Says(lines[n], key, v)
    {
      EntryIs(lines[n], key, v);
    }
    assert forall i :: 0 <= i < n ==> lines[..n][i] == lines[i];
    if Says(lines[n], key, value) {
      assert SaidLast(lines, key, value);
    }
    if SaidLast(lines[..n], key, value) && !(EntryOf(lines[n]).Entry? && EntryOf(lines[n]).key == key) {
      var i :| 0 <= i < n && Says(lines[..n][i], key, value)
        && forall j, v :: i < j < n ==> !Says(lines[..n][j], key, v);
      assert Says(lines[i], key, value);
      assert SaidLast(lines, key, value);
    }
  }

  method ParseAeroflareMetadata(content: string) returns (r: Option<Annotations>)
    ensures r == AnnotationsOf(Lines(content))
  {
    var annotations: Annotations := map[];
    var lines := Lines(content);
    var i := 0;
    while i < |lines|
      invariant 0 <= i <= |lines|
      invariant AnnotationsOf(lines[..i]) == Some(annotations)
    {
      var line := TrimSpace(lines[i]);
      assert lines[..i + 1][..i] == lines[..i];
      i := i + 1;
      if line == "" {
        continue;
      }
      var at := IndexOf(line, ':');
      if at == |line| {
        InvalidLineFails(lines, i);
        return None;
      }
      var key := "aeroflare." + ToLower(TrimSpace(line[..at]));
      annotations := annotations[key := TrimSpace(line[at + 1..])];
    }
    assert lines[..i] == lines;
    r := Some(annotations);
  }

  // ---- the annotations of a printed narinfo -----------------------------------------

  function LowerName(k: Key): string
  {
    match k
    case StorePath => "storepath"
    case Url => "url"
    case Compression => "compression"
    case FileHash => "filehash"
    case FileSize => "filesize"
    case NarHash => "narhash"
    case NarSize => "narsize"
    case References => "references"
    case Deriver => "deriver"
    case System => "system"
    case Sig => "sig"
  }

  /** The annotation a key is kept under. */
  function Label(k: Key): string
  {
    "aeroflare." + LowerName(k)
  }

  const CA_LABEL: string := "aeroflare.ca"

  lemma NameIsTrimmed(k: Key)
    ensures IsTrimmed(Name(k)) && Name(k) != "" && ':' !in Name(k)
  {
    NameNamesKey(k);
  }

  lemma LowerCaseName(k: Key)
    ensures ToLower(Name(k)) == LowerName(k)
  {
    var s, t := Name(k), LowerName(k);
    assert |s| == |t|;
    forall i | 0 <= i < |s|
      ensures Lower(s[i]) == t[i]
    {
    }
  }

  lemma LabelsDiffer(k: Key, j: Key)
    ensures Label(k) == Label(j) <==> k == j
    ensures Label(k) != CA_LABEL
  {
    assert Label(k)[10..] == LowerName(k) && Label(j)[10..] == LowerName(j);
  }

  /** A key that is absent reads as the empty string, in Go as in the Worker. */
  function Look(annotations: Annotations, key: string): string
  {
    if key in annotations then annotations[key] else ""
  }

  lemma TrimmedKey(name: string, rest: string)
    requires name != "" && IsTrimmed(name) && ':' !in name
    requires rest == "" || (rest[0] == ' ' && !IsSpace(rest[|rest| - 1]))
    ensures EntryOf(name + ":" + rest) == Entry("aeroflare." + ToLower(name), TrimSpace(rest))
  {
    var line := name + ":" + rest;
    assert line[0] == name[0];
    assert IsTrimmed(line);
    TrimSpaceShortens(line);
    TrimSpaceShortens(name);
    IndexAfter(name, ':', rest);
    assert line == name + [':'] + rest;
    assert line[..|name|] == name && line[|name| + 1..] == rest;
  }

  lemma SameTrimmed(a: string, b: string)
    requires TrimSpace(a) == TrimSpace(b)
    ensures EntryOf(a) == EntryOf(b)
  {
  }

  lemma EntryOfLine(name: string, value: string)
    requires name != "" && IsTrimmed(name) && ':' !in name
    ensures EntryOf(name + ": " + value) == Entry("aeroflare." + ToLower(name), TrimSpace(value))
  {
    hide EntryOf, TrimSpace, ToLower, IndexOf;
    var l, r := TrimParts(value);
    var t := TrimSpace(value);
    var line := name + ": " + value;
    if t == "" {
      assert line == "" + (name + ":") + (" " + l + r);
      TrimSpaceIs("", name + ":", " " + l + r);
      TrimmedKey(name, "");
      TrimNothing();
      assert name + ":" + "" == name + ":";
      TrimSpaceShortens(name + ":");
      SameTrimmed(line, name + ":");
    } else {
      var rest := " " + l + t;
      assert line == "" + (name + ":" + rest) + r;
      assert (name + ":" + rest)[0] == name[0];
      TrimSpaceIs("", name + ":" + rest, r);
      TrimSpaceShortens(name + ":" + rest);
      SameTrimmed(line, name + ":" + rest);
      TrimmedKey(name, rest);
      assert rest == (" " + l) + t + "";
      TrimSpaceIs(" " + l, t, "");
    }
  }

  lemma TrimDropCR(s: string)
    ensures TrimSpace(DropCR(s)) == TrimSpace(s)
  {
    var l, r := TrimParts(DropCR(s));
    var t := TrimSpace(DropCR(s));
    if DropCR(s) != s {
      assert s == DropCR(s) + "\r";
      assert s == l + t + (r + "\r");
      TrimSpaceIs(l, t, r + "\r");
    }
  }

  /** What the lines of a narinfo become, and the values they hold trimmed. */
  function Annotated(slots: seq<Slot>): Annotations
  {
    if slots == [] then map[]
    else
      var before := Annotated(slots[..|slots| - 1]);
      var last := slots[|slots| - 1];
      if Shown(last) then before[Label(last.key) := TrimSpace(last.value)] else before
  }

  lemma EntryOfPrinted(k: Key, value: string)
    ensures EntryOf(DropCR(Name(k) + ": " + value)) == Entry(Label(k), TrimSpace(value))
  {
    PrintedLine(EMPTY, k, value);
    LowerCaseName(k);
    NameIsTrimmed(k);
    EntryOfLine(Name(k), DropCR(value));
    TrimDropCR(value);
  }

  /** One more line adds its entry. */
  lemma AnnotateLine(text: string, slots: seq<Slot>, last: Slot)
    requires LineScan(text).piece == "" && AnnotationsOf(LineScan(text).done) == Some(Annotated(slots))
    requires '\n' !in last.value && Shown(last)
    ensures LineScan(text + Line(last.key, last.value)).piece == ""
    ensures AnnotationsOf(LineScan(text + Line(last.key, last.value)).done) ==
            Some(Annotated(slots)[Label(last.key) := TrimSpace(last.value)])
  {
    hide Name, EntryOf, TrimSpace, Label, DropCR, LineScan, Annotated;
    var w := Name(last.key) + ": " + last.value;
    assert text + Line(last.key, last.value) == text + w + "\n";
    NameNamesKey(last.key);
    LineScanLine(text, w);
    EntryOfPrinted(last.key, last.value);
    var done := LineScan(text).done;
    assert (done + [DropCR(w)])[..|done|] == done;
  }

  lemma {:induction false} AnnotateRendered(slots: seq<Slot>)
    requires forall i :: 0 <= i < |slots| ==> '\n' !in slots[i].value
    ensures LineScan(Render(slots)).piece == ""
    ensures AnnotationsOf(LineScan(Render(slots)).done) == Some(Annotated(slots))
  {
    if slots != [] {
      hide EntryOf, TrimSpace, Label, LineScan, Line, AnnotationsOf;
      var front, last := slots[..|slots| - 1], slots[|slots| - 1];
      AnnotateRendered(front);
      if Shown(last) {
        AnnotateLine(Render(front), front, last);
      } else {
        assert Render(slots) == Render(front);
      }
    }
  }

  function Place(k: Key): (i: nat)
    ensures i < 11 && KeyAt(i) == k
  {
    match k
    case StorePath => 0
    case Url => 1
    case Compression => 2
    case FileHash => 3
    case FileSize => 4
    case NarHash => 5
    case NarSize => 6
    case References => 7
    case Deriver => 8
    case System => 9
    case Sig => 10
  }

  lemma PlaceOfKey(i: nat)
    requires i < 11
    ensures Place(KeyAt(i)) == i
  {
  }

  lemma TrimNothing()
    ensures TrimSpace("") == ""
  {
  }

  lemma {:induction false} AnnotatedUpTo(n: Narinfo, i: nat, k: Key)
    requires i <= 11
    ensures Look(Annotated(SlotsOf(n)[..i]), Label(k)) == if Place(k) < i then TrimSpace(ValueOf(n, k)) else ""
    ensures Look(Annotated(SlotsOf(n)[..i]), CA_LABEL) == ""
  {
    hide Label, TrimSpace, ValueOf, Place;
    if i > 0 {
      var slots := SlotsOf(n)[..i];
      var last := slots[i - 1];
      assert slots[..i - 1] == SlotsOf(n)[..i - 1];
      AnnotatedUpTo(n, i - 1, k);
      LabelsDiffer(k, last.key);
      LabelsDiffer(last.key, k);
      PlaceOfKey(i - 1);
      TrimNothing();
      assert last == Slot(KeyAt(i - 1), ValueOf(n, KeyAt(i - 1)), i - 1 < 8);
      assert last.key == k <==> Place(k) == i - 1;
    }
  }

  /** The annotations ParseAeroflareMetadata makes of a narinfo's own text. */
  function Annotate(n: Narinfo): Option<Annotations>
  {
    AnnotationsOf(Lines(Print(n)))
  }

  /** They hold every value trimmed, and no content address. */
  lemma AnnotatedValue(n: Narinfo, k: Key)
    requires NewlineFree(n)
    ensures Annotate(n).Some?
    ensures Look(Annotate(n).value, Label(k)) == TrimSpace(ValueOf(n, k))
    ensures Look(Annotate(n).value, CA_LABEL) == ""
  {
    forall j: Key
      ensures '\n' !in ValueOf(n, j)
    {
      ValueIsPlain(n, j);
    }
    AnnotateRendered(SlotsOf(n));
    assert SlotsOf(n)[..11] == SlotsOf(n);
    AnnotatedUpTo(n, 11, k);
  }

  // ---- comparing rendered texts -------------------------------------------------------

  /** The same lines, each value no longer and shown no more often. */
  ghost predicate Shrinks(a: seq<Slot>, b: seq<Slot>)
  {
    && |a| == |b|
    && forall i :: 0 <= i < |a| ==> Shorter(a[i], b[i])
  }

  ghost predicate Shorter(a: Slot, b: Slot)
  {
    a.key == b.key && |b.value| <= |a.value| && (Shown(b) ==> Shown(a))
      && (|b.value| == |a.value| ==> b.value == a.value)
  }

  ghost predicate SameLines(a: seq<Slot>, b: seq<Slot>)
  {
    && |a| == |b|
    && forall i :: 0 <= i < |a| ==> SameLine(a[i], b[i])
  }

  ghost predicate SameLine(a: Slot, b: Slot)
  {
    a.key == b.key && a.value == b.value && Shown(a) == Shown(b)
  }

  /** Shrunk lines give the same text only if nothing was shrunk. */
  lemma {:induction false} RenderShrinks(a: seq<Slot>, b: seq<Slot>)
    requires Shrinks(a, b)
    ensures |Render(b)| <= |Render(a)|
    ensures |Render(b)| == |Render(a)| <==> SameLines(a, b)
    ensures SameLines(a, b) ==> Render(a) == Render(b)
  {
    hide Name;
    if a != [] {
      var m := |a| - 1;
      RenderShrinks(a[..m], b[..m]);
      assert Shorter(a[m], b[m]);
      assert SameLines(a, b) <==> SameLines(a[..m], b[..m]) && SameLine(a[m], b[m]);
    }
  }

  lemma ShrunkTextIsSame(a: seq<Slot>, b: seq<Slot>)
    requires Shrinks(a, b)
    ensures Render(b) == Render(a) <==> SameLines(a, b)
  {
    RenderShrinks(a, b);
  }

  // ---- the proxy ------------------------------------------------------------------------

  /** The first of the three places that names a store path. */
  function NarinfoLabels(annotations: Annotations, manifestLabels: Annotations,
                         configLabels: Annotations): Option<Annotations>
  {
    if Look(annotations, "aeroflare.storepath") != "" then Some(annotations)
    else if Look(manifestLabels, "aeroflare.storepath") != "" then Some(manifestLabels)
    else if Look(configLabels, "aeroflare.storepath") != "" then Some(configLabels)
    else None
  }

  function ServedSlots(labels: Annotations): seq<Slot>
  {
    seq(11, i requires 0 <= i < 11 => Slot(KeyAt(i), Look(labels, Label(KeyAt(i))), i < 8))
  }

  function Served(labels: Annotations): string
  {
    Render(ServedSlots(labels))
  }

  function ServedUpTo(labels: Annotations, i: nat): string
    requires i <= 11
  {
    Render(ServedSlots(labels)[..i])
  }

  lemma ServedStep(labels: Annotations, i: nat, k: Key)
    requires i < 11 && KeyAt(i) == k
    ensures ServedUpTo(labels, i + 1) ==
            ServedUpTo(labels, i) +
            (if i < 8 || Look(labels, Label(k)) != "" then Line(k, Look(labels, Label(k))) else "")
    ensures ServedUpTo(labels, 0) == "" && ServedUpTo(labels, 11) == Served(labels)
  {
    var slots := ServedSlots(labels);
    assert slots[i] == Slot(k, Look(labels, Label(k)), i < 8);
    RenderStep(slots, i);
    assert slots[..11] == slots;
  }

  /** The body comes from the first source with a store path, and there is none if no source has one. */
  ghost predicate FromFirst(sources: seq<Annotations>, body: Option<string>)
  {
    && (body.None? <==> forall i :: 0 <= i < |sources| ==> Look(sources[i], "aeroflare.storepath") == "")
    && forall i :: 0 <= i < |sources| && FirstWithPath(sources, i) ==> body == Some(Served(sources[i]))
  }

  ghost predicate FirstWithPath(sources: seq<Annotations>, i: nat)
    requires i < |sources|
  {
    && Look(sources[i], "aeroflare.storepath") != ""
    && forall j :: 0 <= j < i ==> Look(sources[j], "aeroflare.storepath") == ""
  }

  lemma LabelsAreFirst(annotations: Annotations, manifestLabels: Annotations, configLabels: Annotations)
    ensures FromFirst([annotations, manifestLabels, configLabels],
                      match NarinfoLabels(annotations, manifestLabels, configLabels)
                      case Some(labels) => Some(Served(labels))
                      case None => None)
  {
    hide Look, Served;
    var sources := [annotations, manifestLabels, configLabels];
    assert sources[0] == annotations && sources[1] == manifestLabels && sources[2] == configLabels;
  }

  /** The label each line is made from. */
  lemma LabelsAre()
    ensures Label(StorePath) == "aeroflare.storepath" && Label(Url) == "aeroflare.url"
    ensures Label(Compression) == "aeroflare.compression" && Label(FileHash) == "aeroflare.filehash"
    ensures Label(FileSize) == "aeroflare.filesize" && Label(NarHash) == "aeroflare.narhash"
    ensures Label(NarSize) == "aeroflare.narsize" && Label(References) == "aeroflare.references"
    ensures Label(Deriver) == "aeroflare.deriver" && Label(System) == "aeroflare.system"
    ensures Label(Sig) == "aeroflare.sig"
  {
  }

  lemma ServedNext(labels: Annotations, i: nat, k: Key, front: string)
    requires i < 11 && KeyAt(i) == k && Name(k) + ": " == front
    ensures ServedUpTo(labels, i + 1) ==
            ServedUpTo(labels, i)
              + if i < 8 then front + Look(labels, Label(k)) + "\n" else LineIf(front, Look(labels, Label(k)))
    ensures ServedUpTo(labels, 0) == "" && ServedUpTo(labels, 11) == Served(labels)
  {
    ServedStep(labels, i, k);
    LineIs(k, front, Look(labels, Label(k)));
    hide ServedUpTo, Served, Name, KeyAt, Look, Label, Line;
    assert ServedUpTo(labels, i) + "" == ServedUpTo(labels, i);
  }

  lemma ServedFirst(labels: Annotations)
    ensures ServedUpTo(labels, 8) ==
            ("StorePath: " + Look(labels, "aeroflare.storepath") + "\n")
            + ("URL: " + Look(labels, "aeroflare.url") + "\n")
            + ("Compression: " + Look(labels, "aeroflare.compression") + "\n")
            + ("FileHash: " + Look(labels, "aeroflare.filehash") + "\n")
            + ("FileSize: " + Look(labels, "aeroflare.filesize") + "\n")
            + ("NarHash: " + Look(labels, "aeroflare.narhash") + "\n")
            + ("NarSize: " + Look(labels, "aeroflare.narsize") + "\n")
            + ("References: " + Look(labels, "aeroflare.references") + "\n")
  {
    hide ServedUpTo, Served, Name, Look, Label;
    Fronts();
    LabelsAre();
    ServedNext(labels, 0, StorePath, "StorePath: ");
    NothingBefore("StorePath: " + Look(labels, "aeroflare.storepath") + "\n");
    ServedNext(labels, 1, Url, "URL: ");
    ServedNext(labels, 2, Compression, "Compression: ");
    ServedNext(labels, 3, FileHash, "FileHash: ");
    ServedNext(labels, 4, FileSize, "FileSize: ");
    ServedNext(labels, 5, NarHash, "NarHash: ");
    ServedNext(labels, 6, NarSize, "NarSize: ");
    ServedNext(labels, 7, References, "References: ");
  }

  /** The text the proxy makes of any labels. */
  lemma ServedIs(labels: Annotations)
    ensures Served(labels) ==
            ("StorePath: " + Look(labels, "aeroflare.storepath") + "\n")
            + ("URL: " + Look(labels, "aeroflare.url") + "\n")
            + ("Compression: " + Look(labels, "aeroflare.compression") + "\n")
            + ("FileHash: " + Look(labels, "aeroflare.filehash") + "\n")
            + ("FileSize: " + Look(labels, "aeroflare.filesize") + "\n")
            + ("NarHash: " + Look(labels, "aeroflare.narhash") + "\n")
            + ("NarSize: " + Look(labels, "aeroflare.narsize") + "\n")
            + ("References: " + Look(labels, "aeroflare.references") + "\n")
            + LineIf("Deriver: ", Look(labels, "aeroflare.deriver"))
            + LineIf("System: ", Look(labels, "aeroflare.system")) + LineIf("Sig: ", Look(labels, "aeroflare.sig"))
  {
    hide ServedUpTo, Served, Name, Look, Label, LineIf;
    Fronts();
    LabelsAre();
    ServedFirst(labels);
    ServedNext(labels, 8, Deriver, "Deriver: ");
    ServedNext(labels, 9, System, "System: ");
    ServedNext(labels, 10, Sig, "Sig: ");
  }

  method ServeNativeNarinfo(annotations: Annotations, manifestLabels: Annotations, configLabels: Annotations)
    returns (body: Option<string>)
    ensures body == match NarinfoLabels(annotations, manifestLabels, configLabels)
                    case Some(labels) => Some(Served(labels))
                    case None => None
    ensures FromFirst([annotations, manifestLabels, configLabels], body)
  {
    LabelsAreFirst(annotations, manifestLabels, configLabels);
    var chosen := NarinfoLabels(annotations, manifestLabels, configLabels);
    hide ServedUpTo, Served, Line, Label, NarinfoLabels, FromFirst;
    if chosen.None? {
      return None;
    }
    var labels := chosen.value;
    var b := "";
    ServedStep(labels, 0, StorePath);
    b := b + Line(StorePath, Look(labels, Label(StorePath)));
    assert b == ServedUpTo(labels, 1);
    ServedStep(labels, 1, Url);
    b := b + Line(Url, Look(labels, Label(Url)));
    assert b == ServedUpTo(labels, 2);
    ServedStep(labels, 2, Compression);
    b := b + Line(Compression, Look(labels, Label(Compression)));
    assert b == ServedUpTo(labels, 3);
    ServedStep(labels, 3, FileHash);
    b := b + Line(FileHash, Look(labels, Label(FileHash)));
    assert b == ServedUpTo(labels, 4);
    ServedStep(labels, 4, FileSize);
    b := b + Line(FileSize, Look(labels, Label(FileSize)));
    assert b == ServedUpTo(labels, 5);
    ServedStep(labels, 5, NarHash);
    b := b + Line(NarHash, Look(labels, Label(NarHash)));
    assert b == ServedUpTo(labels, 6);
    ServedStep(labels, 6, NarSize);
    b := b + Line(NarSize, Look(labels, Label(NarSize)));
    assert b == ServedUpTo(labels, 7);
    ServedStep(labels, 7, References);
    EmptyReferences();
    if Look(labels, Label(References)) != "" {
      b := b + Line(References, Look(labels, Label(References)));
    } else {
      b := b + "References: \n";
    }
    assert b == ServedUpTo(labels, 8);
    ServedStep(labels, 8, Deriver);
    if Look(labels, Label(Deriver)) != "" {
      b := b + Line(Deriver, Look(labels, Label(Deriver)));
    }
    assert b == ServedUpTo(labels, 9);
    ServedStep(labels, 9, System);
    if Look(labels, Label(System)) != "" {
      b := b + Line(System, Look(labels, Label(System)));
    }
    assert b == ServedUpTo(labels, 10);
    ServedStep(labels, 10, Sig);
    if Look(labels, Label(Sig)) != "" {
      b := b + Line(Sig, Look(labels, Label(Sig)));
    }
    assert b == ServedUpTo(labels, 11);
    body := Some(b);
  }

  /** No white space at either end of any value. */
  ghost predicate AllTrimmed(n: Narinfo)
  {
    forall k :: IsTrimmed(ValueOf(n, k))
  }

  lemma ServedValue(n: Narinfo, i: nat)
    requires NewlineFree(n) && i < 11
    ensures Annotate(n).Some?
    ensures ServedSlots(Annotate(n).value)[i] == Slot(KeyAt(i), TrimSpace(ValueOf(n, KeyAt(i))), i < 8)
  {
    AnnotatedValue(n, KeyAt(i));
  }

  lemma SlotValue(n: Narinfo, i: nat)
    requires i < 11
    ensures SlotsOf(n)[i] == Slot(KeyAt(i), ValueOf(n, KeyAt(i)), i < 8)
  {
  }

  /** The narinfo's lines and the lines read back, seen side by side. */
  ghost predicate ReadBack(n: Narinfo, b: seq<Slot>, always: nat -> bool)
  {
    |b| == 11 && forall i: nat :: i < 11 ==> b[i] == Slot(KeyAt(i), TrimSpace(ValueOf(n, KeyAt(i))), always(i))
  }

  /** A reader that always writes a line only where String does gives the same text exactly if it loses nothing. */
  lemma ReadBackIff(n: Narinfo, b: seq<Slot>, always: nat -> bool)
    requires ReadBack(n, b, always) && forall i :: always(i) ==> i < 8
    ensures Render(b) == Print(n) <==> AllTrimmed(n) && forall i: nat :: i < 8 ==>
      always(i) || ValueOf(n, KeyAt(i)) != ""
  {
    var a := SlotsOf(n);
    hide SlotsOf, ValueOf, TrimSpace, Place, KeyAt;
    assert |a| == 11 by { SlotCount(n); }
    forall i: nat | i < 11
      ensures Shorter(a[i], b[i])
      ensures SameLine(a[i], b[i]) <==> IsTrimmed(a[i].value) && (i < 8 ==> always(i) || a[i].value != "")
      ensures a[i].key == KeyAt(i) && a[i].value == ValueOf(n, KeyAt(i))
    {
      SlotValue(n, i);
      TrimSpaceShortens(a[i].value);
    }
    ShrunkTextIsSame(a, b);
    if SameLines(a, b) {
      forall k
        ensures IsTrimmed(ValueOf(n, k))
      {
        assert SameLine(a[Place(k)], b[Place(k)]);
      }
      forall i: nat | i < 8
        ensures always(i) || ValueOf(n, KeyAt(i)) != ""
      {
        assert SameLine(a[i], b[i]);
      }
    }
  }

  lemma SlotCount(n: Narinfo)
    ensures |SlotsOf(n)| == 11
  {
  }

  /**
   What the proxy serves for a pushed narinfo is the narinfo's own text exactly when
   no value has white space at its ends; with a store path it is served.
   */
  lemma ServedIff(n: Narinfo)
    requires NewlineFree(n)
    ensures Annotate(n).Some?
    ensures Served(Annotate(n).value) == Print(n) <==> AllTrimmed(n)
  {
    forall i: nat | i < 11
      ensures Annotate(n).Some? && ServedSlots(Annotate(n).value)[i] ==
        Slot(KeyAt(i), TrimSpace(ValueOf(n, KeyAt(i))), i < 8)
    {
      ServedValue(n, i);
    }
    AnnotatedValue(n, StorePath);
    ReadBackIff(n, ServedSlots(Annotate(n).value), i => i < 8);
  }

  /** A pushed narinfo is found by its own annotations if its store path is not blank. */
  lemma PushedIsFound(n: Narinfo, manifestLabels: Annotations, configLabels: Annotations)
    requires NewlineFree(n) && TrimSpace(n.storePath) != ""
    ensures Annotate(n).Some?
    ensures NarinfoLabels(Annotate(n).value, manifestLabels, configLabels) == Annotate(n)
  {
    hide Annotate, TrimSpace, NewlineFree;
    AnnotatedValue(n, StorePath);
    assert Label(StorePath) == "aeroflare.storepath";
    hide Label;
  }

  // ---- the Worker -------------------------------------------------------------------------

  /** The rows of NARINFO_FIELDS: the label and the text before the colon. */
  function Row(j: nat): (string, string)
  {
    if j < 9 then (Label(KeyAt(j)), Name(KeyAt(j)))
    else if j == 9 then (CA_LABEL, "CA")
    else (Label(KeyAt(j - 1)), Name(KeyAt(j - 1)))
  }

  /** The line of row j, if there is one. */
  function RowLine(annotations: Annotations, j: nat): Option<string>
  {
    var value := Look(annotations, Row(j).0);
    if Row(j).1 == "References" then Some("References: " + value)
    else if value != "" then Some(Row(j).1 + ": " + value)
    else None
  }

  function RowsText(annotations: Annotations, j: nat): string
  {
    if j == 0 then ""
    else
      RowsText(annotations, j - 1) +
      match RowLine(annotations, j - 1)
      case Some(line) => line + "\n"
      case None => ""
  }

  function WorkerText(annotations: Annotations): string
  {
    RowsText(annotations, 12)
  }

  lemma RowNext(annotations: Annotations, j: nat, key: string, field: string, front: string)
    requires Row(j) == (key, field) && field + ": " == front
    ensures RowsText(annotations, j + 1) ==
            RowsText(annotations, j)
              + if field == "References" then front + Look(annotations, key) + "\n"
                else LineIf(front, Look(annotations, key))
    ensures RowsText(annotations, 0) == ""
  {
    hide Row, Look;
    var value := Look(annotations, key);
    var before := RowsText(annotations, j);
    if field == "References" {
      assert "References: " == front;
    }
    assert before + "" == before;
  }

  lemma RowsAre()
    ensures Row(0) == ("aeroflare.storepath", "StorePath") && Row(1) == ("aeroflare.url", "URL")
    ensures Row(2) == ("aeroflare.compression", "Compression") && Row(3) == ("aeroflare.filehash", "FileHash")
    ensures Row(4) == ("aeroflare.filesize", "FileSize") && Row(5) == ("aeroflare.narhash", "NarHash")
    ensures Row(6) == ("aeroflare.narsize", "NarSize") && Row(7) == ("aeroflare.references", "References")
    ensures Row(8) == ("aeroflare.deriver", "Deriver") && Row(9) == ("aeroflare.ca", "CA")
    ensures Row(10) == ("aeroflare.system", "System") && Row(11) == ("aeroflare.sig", "Sig")
  {
    LabelsAre();
    hide Label;
  }

  lemma WorkerFirst(annotations: Annotations)
    ensures RowsText(annotations, 7) ==
            LineIf("StorePath: ", Look(annotations, "aeroflare.storepath"))
            + LineIf("URL: ", Look(annotations, "aeroflare.url"))
            + LineIf("Compression: ", Look(annotations, "aeroflare.compression"))
            + LineIf("FileHash: ", Look(annotations, "aeroflare.filehash"))
            + LineIf("FileSize: ", Look(annotations, "aeroflare.filesize"))
            + LineIf("NarHash: ", Look(annotations, "aeroflare.narhash"))
            + LineIf("NarSize: ", Look(annotations, "aeroflare.narsize"))
  {
    hide Row, RowsText, Look, LineIf;
    RowsAre();
    RowNext(annotations, 0, "aeroflare.storepath", "StorePath", "StorePath: ");
    NothingBefore(LineIf("StorePath: ", Look(annotations, "aeroflare.storepath")));
    RowNext(annotations, 1, "aeroflare.url", "URL", "URL: ");
    RowNext(annotations, 2, "aeroflare.compression", "Compression", "Compression: ");
    RowNext(annotations, 3, "aeroflare.filehash", "FileHash", "FileHash: ");
    RowNext(annotations, 4, "aeroflare.filesize", "FileSize", "FileSize: ");
    RowNext(annotations, 5, "aeroflare.narhash", "NarHash", "NarHash: ");
    RowNext(annotations, 6, "aeroflare.narsize", "NarSize", "NarSize: ");
  }

  /** The text the Worker makes of any annotations. */
  lemma WorkerTextIs(annotations: Annotations)
    ensures WorkerText(annotations) ==
            LineIf("StorePath: ", Look(annotations, "aeroflare.storepath"))
            + LineIf("URL: ", Look(annotations, "aeroflare.url"))
            + LineIf("Compression: ", Look(annotations, "aeroflare.compression"))
            + LineIf("FileHash: ", Look(annotations, "aeroflare.filehash"))
            + LineIf("FileSize: ", Look(annotations, "aeroflare.filesize"))
            + LineIf("NarHash: ", Look(annotations, "aeroflare.narhash"))
            + LineIf("NarSize: ", Look(annotations, "aeroflare.narsize"))
            + ("References: " + Look(annotations, "aeroflare.references") + "\n")
            + LineIf("Deriver: ", Look(annotations, "aeroflare.deriver"))
            + LineIf("CA: ", Look(annotations, "aeroflare.ca"))
            + LineIf("System: ", Look(annotations, "aeroflare.system"))
            + LineIf("Sig: ", Look(annotations, "aeroflare.sig"))
  {
    hide Row, RowsText, Look, LineIf;
    RowsAre();
    WorkerFirst(annotations);
    RowNext(annotations, 7, "aeroflare.references", "References", "References: ");
    RowNext(annotations, 8, "aeroflare.deriver", "Deriver", "Deriver: ");
    RowNext(annotations, 9, "aeroflare.ca", "CA", "CA: ");
    RowNext(annotations, 10, "aeroflare.system", "System", "System: ");
    RowNext(annotations, 11, "aeroflare.sig", "Sig", "Sig: ");
  }

  /** The lines, each ended. */
  function LinesText(lines: seq<string>): string
  {
    if lines == [] then "" else LinesText(lines[..|lines| - 1]) + lines[|lines| - 1] + "\n"
  }

  lemma LinesTextAppend(lines: seq<string>, line: string)
    ensures LinesText(lines + [line]) == LinesText(lines) + line + "\n"
  {
    assert (lines + [line])[..|lines|] == lines;
  }

  lemma {:induction false} JoinedLines(lines: seq<string>)
    requires lines != []
    ensures Join(lines, "\n") + "\n" == LinesText(lines)
  {
    if |lines| > 1 {
      JoinedLines(lines[..|lines| - 1]);
    } else {
      assert lines[..0] == [];
      assert "" + lines[0] + "\n" == lines[0] + "\n";
    }
  }

  method GenerateNarinfo(annotations: Annotations) returns (text: string)
    ensures text == WorkerText(annotations)
  {
    assert RowsText(annotations, 0) == "" && LinesText([]) == "";
    hide Row, Join, RowsText, RowLine, Look, LinesText;
    var lines: seq<string> := [];
    var j := 0;
    while j < 12
      invariant 0 <= j <= 12
      invariant LinesText(lines) == RowsText(annotations, j)
      invariant j > 7 ==> lines != []
    {
      var (key, field) := Row(j);
      var value := Look(annotations, key);
      ReferencesRow(j);
      RowsStep(annotations, j, key, field, value);
      if field == "References" {
        var line := if value != "" then "References: " + value else "References: ";
        LinesTextAppend(lines, line);
        lines := lines + [line];
      } else if value != "" {
        var line := field + ": " + value;
        LinesTextAppend(lines, line);
        lines := lines + [line];
      }
      j := j + 1;
    }
    JoinedLines(lines);
    text := Join(lines, "\n") + "\n";
  }

  lemma RowsStep(annotations: Annotations, j: nat, key: string, field: string, value: string)
    requires Row(j) == (key, field) && value == Look(annotations, key)
    ensures field == "References" ==>
              RowsText(annotations, j + 1) == RowsText(annotations, j)
                + (if value != "" then "References: " + value else "References: ") + "\n"
    ensures field != "References" && value != "" ==>
              RowsText(annotations, j + 1) == RowsText(annotations, j) + (field + ": " + value) + "\n"
    ensures field != "References" && value == "" ==> RowsText(annotations, j + 1) == RowsText(annotations, j)
  {
    hide Row, Look;
    var before := RowsText(annotations, j);
    assert "References: " + "" == "References: ";
    match RowLine(annotations, j)
    case Some(line) => assert before + (line + "\n") == before + line + "\n";
    case None => assert before + "" == before;
  }

  lemma ReferencesRow(j: nat)
    requires j < 12
    ensures Row(j).1 == "References" <==> j == 7
  {
  }

  function WorkerSlots(annotations: Annotations): seq<Slot>
  {
    seq(11, i requires 0 <= i < 11 => Slot(KeyAt(i), Look(annotations, Label(KeyAt(i))), i == 7))
  }

  lemma KeyIsReferences(i: nat)
    requires i < 11
    ensures Name(KeyAt(i)) == "References" <==> i == 7
  {
  }

  lemma RowLineIsSlot(annotations: Annotations, j: nat, i: nat)
    requires i < 11 && j == (if i < 9 then i else i + 1)
    ensures RowsText(annotations, j + 1) == RowsText(annotations, j) +
            (if Shown(WorkerSlots(annotations)[i]) then Line(KeyAt(i), WorkerSlots(annotations)[i].value) else "")
  {
    hide Name, Label, KeyAt, Row, RowsText, Look, WorkerSlots, Line;
    RowOfKey(j, i);
    KeyIsReferences(i);
    WorkerSlotKey(annotations, i);
    var value := Look(annotations, Label(KeyAt(i)));
    RowsStep(annotations, j, Label(KeyAt(i)), Name(KeyAt(i)), value);
    RowTextIsLine(KeyAt(i), RowsText(annotations, j), value);
  }

  lemma RowOfKey(j: nat, i: nat)
    requires i < 11 && j == (if i < 9 then i else i + 1)
    ensures Row(j) == (Label(KeyAt(i)), Name(KeyAt(i)))
  {
  }

  lemma RowTextIsLine(k: Key, before: string, value: string)
    ensures before + (Name(k) + ": " + value) + "\n" == before + Line(k, value)
    ensures before + "" == before
  {
    hide Name;
    assert before + (Name(k) + ": " + value) + "\n" == before + (Name(k) + ": " + value + "\n");
  }

  lemma {:induction false} RowsUpTo(annotations: Annotations, i: nat)
    requires i <= 11 && Look(annotations, CA_LABEL) == ""
    ensures Render(WorkerSlots(annotations)[..i]) == RowsText(annotations, if i <= 9 then i else i + 1)
  {
    if i > 0 {
      hide Name, Label, KeyAt, Row, Render, RowsText, Look;
      RowsUpTo(annotations, i - 1);
      RenderStep(WorkerSlots(annotations), i - 1);
      RowLineIsSlot(annotations, if i - 1 < 9 then i - 1 else i, i - 1);
      WorkerSlotKey(annotations, i - 1);
      NoContentAddress(annotations);
    }
  }

  lemma WorkerSlotKey(annotations: Annotations, i: nat)
    requires i < 11
    ensures WorkerSlots(annotations)[i] == Slot(KeyAt(i), Look(annotations, Label(KeyAt(i))), i == 7)
  {
  }

  lemma NoContentAddress(annotations: Annotations)
    requires Look(annotations, CA_LABEL) == ""
    ensures RowsText(annotations, 10) == RowsText(annotations, 9)
  {
    assert Row(9).1 == "CA";
  }

  /**
   The Worker writes a pushed narinfo's own text exactly when no value has white space
   at its ends and each of the seven lines before the references has a value.
   */
  lemma WorkerIff(n: Narinfo)
    requires NewlineFree(n)
    ensures Annotate(n).Some?
    ensures WorkerText(Annotate(n).value) == Print(n) <==>
            AllTrimmed(n) && n.storePath != "" && n.url != "" && n.compression != "" && n.fileHash != ""
              && n.narHash != ""
  {
    AnnotatedValue(n, StorePath);
    var ann := Annotate(n).value;
    forall i: nat | i < 11
      ensures WorkerSlots(ann)[i] == Slot(KeyAt(i), TrimSpace(ValueOf(n, KeyAt(i))), i == 7)
    {
      AnnotatedValue(n, KeyAt(i));
    }
    ReadBackIff(n, WorkerSlots(ann), i => i == 7);
    RowsUpTo(ann, 11);
    assert WorkerSlots(ann)[..11] == WorkerSlots(ann);
    MandatoryValues(n);
  }

  lemma MandatoryValues(n: Narinfo)
    ensures (forall i: nat :: i < 8 ==> i == 7 || ValueOf(n, KeyAt(i)) != "") <==>
            n.storePath != "" && n.url != "" && n.compression != "" && n.fileHash != "" && n.narHash != ""
  {
    FormatIntTrimmed(n.fileSize);
    FormatIntTrimmed(n.narSize);
    if forall i: nat :: i < 8 ==> i == 7 || ValueOf(n, KeyAt(i)) != "" {
      forall k | k in {StorePath, Url, Compression, FileHash, NarHash}
        ensures ValueOf(n, k) != ""
      {
        assert KeyAt(Place(k)) == k;
      }
      assert ValueOf(n, StorePath) != "" && ValueOf(n, Url) != "" && ValueOf(n, Compression) != ""
        && ValueOf(n, FileHash) != "";
      assert ValueOf(n, NarHash) != "";
    }
  }

  // ---- pulling a manifest ------------------------------------------------------------------

  /** The narinfo PullOCINativeManifest rebuilds; a size that does not parse is 0. */
  function Pull(ann: Annotations): Narinfo
  {
    var r := Look(ann, Label(References));
    Narinfo(Look(ann, Label(StorePath)), Look(ann, Label(Url)), Look(ann, Label(Compression)),
            Look(ann, Label(FileHash)), ParseInt(Look(ann, Label(FileSize))),
            Look(ann, Label(NarHash)), ParseInt(Look(ann, Label(NarSize))),
            if r != "" then Split(r, ' ') else [],
            Look(ann, Label(Deriver)), Look(ann, Label(System)), Look(ann, Label(Sig)))
  }

  /** What a pushed narinfo is pulled as: every value trimmed, the references split at each space. */
  lemma PullPushed(n: Narinfo)
    requires NewlineFree(n)
    ensures Annotate(n).Some?
    ensures var m := Pull(Annotate(n).value);
            && m.storePath == TrimSpace(n.storePath) && m.url == TrimSpace(n.url)
              && m.compression == TrimSpace(n.compression)
            && m.fileHash == TrimSpace(n.fileHash) && m.narHash == TrimSpace(n.narHash)
            && m.fileSize == n.fileSize && m.narSize == n.narSize
            && m.deriver == TrimSpace(n.deriver) && m.system == TrimSpace(n.system) && m.sig == TrimSpace(n.sig)
            && m.references == var r := TrimSpace(Join(n.references, " ")); if r != "" then Split(r, ' ') else []
  {
    hide Label, Annotate, ParseInt, FormatInt, TrimSpace, Join, Split;
    AnnotatedValue(n, StorePath);
    AnnotatedValue(n, Url);
    AnnotatedValue(n, Compression);
    AnnotatedValue(n, FileHash);
    AnnotatedValue(n, FileSize);
    AnnotatedValue(n, NarHash);
    AnnotatedValue(n, NarSize);
    AnnotatedValue(n, References);
    AnnotatedValue(n, Deriver);
    AnnotatedValue(n, System);
    AnnotatedValue(n, Sig);
    PrintedSizeIsKept(n.fileSize);
    PrintedSizeIsKept(n.narSize);
  }

  lemma PrintedSizeIsKept(x: Int64)
    ensures ParseInt(TrimSpace(FormatInt(x))) == x
  {
    FormatIntTrimmed(x);
    TrimSpaceShortens(FormatInt(x));
    ParseFormat(x);
  }

  /** References that a single space can part and that are not lost at the ends. */
  ghost predicate SpacedReferences(refs: seq<string>)
  {
    refs != [""] && IsTrimmed(Join(refs, " ")) && forall r :: r in refs ==> ' ' !in r
  }

  lemma ReferencesPulled(refs: seq<string>)
    ensures (var r := TrimSpace(Join(refs, " ")); if r != "" then Split(r, ' ') else []) == refs <==>
      SpacedReferences(refs)
  {
    var j := Join(refs, " ");
    var r := TrimSpace(j);
    TrimSpaceShortens(j);
    if (if r != "" then Split(r, ' ') else []) == refs {
      SplitPieces(r, ' ');
      JoinSplit(r, ' ');
    }
    if SpacedReferences(refs) && refs != [] {
      SplitJoin(refs, ' ');
      assert j == "" ==> Split(j, ' ') == [""];
    }
  }

  /** A pushed narinfo is pulled as it was exactly when every value is trimmed and single spaces part its references. */
  lemma PullIff(n: Narinfo)
    requires NewlineFree(n)
    ensures Annotate(n).Some?
    ensures Pull(Annotate(n).value) == n <==> AllTrimmed(n) && SpacedReferences(n.references)
  {
    PullPushed(n);
    ReferencesPulled(n.references);
    forall s: string
      ensures TrimSpace(s) == s <==> IsTrimmed(s)
    {
      TrimSpaceShortens(s);
    }
    FormatIntTrimmed(n.fileSize);
    FormatIntTrimmed(n.narSize);
    TrimmedValues(n);
  }

  lemma TrimmedValues(n: Narinfo)
    ensures AllTrimmed(n) <==>
            && IsTrimmed(n.storePath) && IsTrimmed(n.url) && IsTrimmed(n.compression) && IsTrimmed(n.fileHash)
              && IsTrimmed(n.narHash)
            && IsTrimmed(n.deriver) && IsTrimmed(n.system) && IsTrimmed(n.sig) && IsTrimmed(Join(n.references, " "))
  {
    FormatIntTrimmed(n.fileSize);
    FormatIntTrimmed(n.narSize);
    if AllTrimmed(n) {
      assert IsTrimmed(ValueOf(n, StorePath)) && IsTrimmed(ValueOf(n, Url)) && IsTrimmed(ValueOf(n, Compression));
      assert IsTrimmed(ValueOf(n, FileHash)) && IsTrimmed(ValueOf(n, NarHash)) && IsTrimmed(ValueOf(n, References));
      assert IsTrimmed(ValueOf(n, Deriver)) && IsTrimmed(ValueOf(n, System)) && IsTrimmed(ValueOf(n, Sig));
    }
  }

  /** Well-formed: printable, trimmed, and with every mandatory value there. */
  ghost predicate WellFormed(n: Narinfo)
  {
    && Printable(n) && AllTrimmed(n)
    && n.storePath != "" && n.url != "" && n.compression != "" && n.fileHash != "" && n.narHash != ""
  }

  /** On a well-formed narinfo the three printers write the same bytes and both readers give the narinfo back. */
  lemma PrintersAndReadersAgree(n: Narinfo)
    requires WellFormed(n)
    ensures ParseText(Print(n)) == n
    ensures Annotate(n).Some? && NarinfoLabels(Annotate(n).value, map[], map[]) == Annotate(n)
    ensures Served(Annotate(n).value) == Print(n)
    ensures WorkerText(Annotate(n).value) == Print(n)
    ensures Pull(Annotate(n).value) == n
  {
    hide TrimSpace, Annotate, Served, WorkerText, Pull, Join, Print, ParseText, ValueOf, NarinfoLabels, Label, Look,
      IsTrimmed;
    assert ParseText(Print(n)) == n by { RoundTripIff(n); }
    assert Served(Annotate(n).value) == Print(n) by { ServedIff(n); }
    assert WorkerText(Annotate(n).value) == Print(n) by { WorkerIff(n); }
    TrimmedValues(n);
    TrimSpaceShortens(n.storePath);
    PushedIsFound(n, map[], map[]);
    PlainReferences(n.references);
    PullIff(n);
  }

  lemma PlainReferences(refs: seq<string>)
    requires forall r :: r in refs ==> IsField(r)
    ensures refs != [""] && forall r :: r in refs ==> ' ' !in r
  {
    assert IsSpace(' ');
    assert "" in [""];
  }
}
