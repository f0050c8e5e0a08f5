/**
 Narinfo signatures (pkg/prepare/signing/signing.go). The fingerprint forgets the
 order of the references and nothing else, so a signature stands for the store path,
 hash, size and references it was made over, before and after the narinfo was printed.

 The key's signing and checking are parameters: sign gives the encoded signature of a
 fingerprint, check decodes one and verifies it.
 */
module Signing {
  import opened Text
  import opened Sorting
  import opened AbsoluteReferences
  import opened NarinfoText
  import opened ServedNarinfo

  function FingerprintText(storeDir: string, storePath: string, narHash: string, narSize: Int64,
                           refs: seq<string>): string
  {
    Join(["1", storePath, narHash, FormatInt(narSize), Joined(storeDir, refs)], ";")
  }

  /** The reference as it is if it begins with a slash, otherwise in the store directory. */
  ghost predicate MadeAbsolute(storeDir: string, refs: seq<string>, absolute: seq<string>)
  {
    && |absolute| == |refs|
    && forall i :: 0 <= i < |refs| ==>
         absolute[i] == if "/" <= refs[i] then refs[i] else storeDir + "/" + refs[i]
  }

  /** The references made absolute, in byte order. */
  ghost predicate ListsReferences(storeDir: string, refs: seq<string>, list: seq<string>)
  {
    exists absolute :: MadeAbsolute(storeDir, refs, absolute) && InByteOrder(list, absolute)
  }

  /** Five parts between semicolons, the last of them the references between commas. */
  ghost predicate IsFingerprint(fp: string, storeDir: string, storePath: string, narHash: string, narSize: Int64,
                                refs: seq<string>)
  {
    exists list :: ListsReferences(storeDir, refs, list)
      && fp == "1;" + storePath + ";" + narHash + ";" + FormatInt(narSize) + ";" + Join(list, ",")
  }

  lemma FingerprintIs(storeDir: string, storePath: string, narHash: string, narSize: Int64, refs: seq<string>)
    ensures IsFingerprint(FingerprintText(storeDir, storePath, narHash, narSize, refs), storeDir, storePath, narHash,
                          narSize, refs)
  {
    var absolute := AbsoluteAll(storeDir, refs);
    var list := Sort(absolute);
    assert MadeAbsolute(storeDir, refs, absolute);
    SortIs(absolute);
    assert ListsReferences(storeDir, refs, list);
    assert Joined(storeDir, refs) == Join(list, ",");
    FingerprintParts(storeDir, storePath, narHash, narSize, refs);
    PartsInARow(storePath, narHash, FormatInt(narSize), Join(list, ","));
    hide FormatInt, Join, Joined, FingerprintText, ListsReferences;
  }

  lemma PartsInARow(b: string, c: string, d: string, e: string)
    ensures "1" + ";" + (b + ";" + (c + ";" + (d + ";" + e))) == "1;" + b + ";" + c + ";" + d + ";" + e
  {
    assert "1" + ";" == "1;";
  }

  /** dir is filepath.Dir. */
  method Fingerprint(dir: string -> string, storePath: string, narHash: string, narSize: Int64, references: seq<string>)
    returns (fp: string)
    ensures fp == FingerprintText(dir(storePath), storePath, narHash, narSize, references)
    ensures IsFingerprint(fp, dir(storePath), storePath, narHash, narSize, references)
  {
    hide FormatInt, Join, Sort, IsFingerprint;
    FingerprintIs(dir(storePath), storePath, narHash, narSize, references);
    var storeDir := dir(storePath);
    var absoluteRefs: seq<string> := [];
    var i := 0;
    while i < |references|
      invariant 0 <= i <= |references|
      invariant absoluteRefs == AbsoluteAll(storeDir, references)[..i]
    {
      var ref := references[i];
      if IsAbs(ref) {
        absoluteRefs := absoluteRefs + [ref];
      } else {
        absoluteRefs := absoluteRefs + [storeDir + "/" + ref];
      }
      i := i + 1;
    }
    assert absoluteRefs == AbsoluteAll(storeDir, references);
    absoluteRefs := Sort(absoluteRefs);
    fp := Join(["1", storePath, narHash, FormatInt(narSize), Join(absoluteRefs, ",")], ";");
  }

  // ---- what a fingerprint determines -----------------------------------------------------

  lemma FingerprintParts(storeDir: string, storePath: string, narHash: string, narSize: Int64, refs: seq<string>)
    ensures FingerprintText(storeDir, storePath, narHash, narSize, refs) ==
            "1" + ";" + (storePath + ";" + (narHash + ";"
              + (FormatInt(narSize) + ";" + Joined(storeDir, refs))))
  {
    JoinFive("1", storePath, narHash, FormatInt(narSize), Joined(storeDir, refs));
  }

  lemma JoinFive(a: string, b: string, c: string, d: string, e: string)
    ensures Join([a, b, c, d, e], ";") == a + ";" + (b + ";" + (c + ";" + (d + ";" + e)))
  {
    hide Join;
    var one := [a];
    var two := one + [b];
    var three := two + [c];
    var four := three + [d];
    JoinAppend([], a, ";");
    JoinAppend(one, b, ";");
    JoinAppend(two, c, ";");
    JoinAppend(three, d, ";");
    JoinAppend(four, e, ";");
    assert [] + [a] == one;
    assert [a, b, c, d, e] == four + [e];
    assert a + ";" + b + ";" + c + ";" + d + ";" + e == a + ";" + (b + ";" + (c + ";" + (d + ";" + e)));
  }

  /** The first separator ends the first part. */
  lemma FirstPart(a: string, x: string, b: string, y: string)
    requires ';' !in a && ';' !in b && a + ";" + x == b + ";" + y
    ensures a == b && x == y
  {
    IndexAfter(a, ';', x);
    IndexAfter(b, ';', y);
    assert a + [';'] + x == a + ";" + x && b + [';'] + y == b + ";" + y;
    var s := a + ";" + x;
    assert s[..|a|] == a && s[|a| + 1..] == x && (b + ";" + y)[..|b|] == b && (b + ";" + y)[|b| + 1..] == y;
  }

  /** A list of references that can be read back from its text, up to their order. */
  ghost predicate Readable(storeDir: string, refs: seq<string>)
  {
    Plain(refs) && (AmbiguousDir(storeDir) ==> CommaFree(storeDir, refs))
  }

  lemma ReadableToldApart(storeDir: string, refs: seq<string>, refs': seq<string>)
    requires Readable(storeDir, refs) && Readable(storeDir, refs')
    ensures Joined(storeDir, refs) == Joined(storeDir, refs') <==>
            multiset(AbsoluteAll(storeDir, refs)) == multiset(AbsoluteAll(storeDir, refs'))
  {
    SortCanonical(AbsoluteAll(storeDir, refs), AbsoluteAll(storeDir, refs'));
    hide AmbiguousDir, CommaFree, Plain, Sort, Join, AbsoluteAll;
    if Joined(storeDir, refs) == Joined(storeDir, refs') {
      if AmbiguousDir(storeDir) {
        CommaFreeToldApart(storeDir, refs, refs');
      } else {
        PlainToldApart(storeDir, refs, refs');
      }
    }
  }

  /** Equal fingerprints mean the same path, hash and size, and the same absolute references as often. */
  lemma FingerprintIff(dir: string -> string, p: string, h: string, s: Int64, refs: seq<string>,
                       p': string, h': string, s': Int64, refs': seq<string>)
    requires ';' !in p && ';' !in h && ';' !in p' && ';' !in h'
    requires Readable(dir(p), refs) && Readable(dir(p'), refs')
    ensures FingerprintText(dir(p), p, h, s, refs) == FingerprintText(dir(p'), p', h', s', refs') <==>
            p == p' && h == h' && s == s' && multiset(AbsoluteAll(dir(p), refs)) ==
              multiset(AbsoluteAll(dir(p'), refs'))
  {
    var j, j' := Joined(dir(p), refs), Joined(dir(p'), refs');
    var z, z' := FormatInt(s), FormatInt(s');
    FingerprintParts(dir(p), p, h, s, refs);
    FingerprintParts(dir(p'), p', h', s', refs');
    FormatIntPlain(s, ';');
    FormatIntPlain(s', ';');
    ParseFormat(s);
    ParseFormat(s');
    hide *;
    if p == p' {
      ReadableToldApart(dir(p), refs, refs');
    }
    if FingerprintText(dir(p), p, h, s, refs) == FingerprintText(dir(p'), p', h', s', refs') {
      FirstPart("1", p + ";" + (h + ";" + (z + ";" + j)), "1", p' + ";" + (h' + ";" + (z' + ";" + j')));
      FirstPart(p, h + ";" + (z + ";" + j), p', h' + ";" + (z' + ";" + j'));
      FirstPart(h, z + ";" + j, h', z' + ";" + j');
      FirstPart(z, j, z', j');
    }
  }

  lemma SameFingerprint(storeDir: string, p: string, h: string, s: Int64, refs: seq<string>, refs': seq<string>)
    ensures FingerprintText(storeDir, p, h, s, refs) == FingerprintText(storeDir, p, h, s, refs') <==>
            Joined(storeDir, refs) == Joined(storeDir, refs')
  {
    FingerprintParts(storeDir, p, h, s, refs);
    FingerprintParts(storeDir, p, h, s, refs');
    hide *;
    var front := "1" + ";" + (p + ";" + (h + ";" + (FormatInt(s) + ";")));
    AppendedParts(p, h, FormatInt(s), Joined(storeDir, refs), front);
    AppendedParts(p, h, FormatInt(s), Joined(storeDir, refs'), front);
    assert (front + Joined(storeDir, refs))[|front|..] == Joined(storeDir, refs);
    assert (front + Joined(storeDir, refs'))[|front|..] == Joined(storeDir, refs');
  }

  lemma AppendedParts(p: string, h: string, z: string, j: string, front: string)
    requires front == "1" + ";" + (p + ";" + (h + ";" + (z + ";")))
    ensures "1" + ";" + (p + ";" + (h + ";" + (z + ";" + j))) == front + j
  {
  }

  /** If the two lists hold no comma as written and have one fingerprint, they are the same, order aside. */
  ghost predicate FingerprintDecides(storeDir: string, p: string, h: string, s: Int64, refs: seq<string>,
                                     refs': seq<string>)
  {
    && Plain(refs) && Plain(refs')
    && FingerprintText(storeDir, p, h, s, refs) == FingerprintText(storeDir, p, h, s, refs')
    ==> multiset(AbsoluteAll(storeDir, refs)) == multiset(AbsoluteAll(storeDir, refs'))
  }

  lemma DecidesIffToldApart(storeDir: string, p: string, h: string, s: Int64, refs: seq<string>, refs': seq<string>)
    ensures FingerprintDecides(storeDir, p, h, s, refs, refs') <==> ToldApart(storeDir, refs, refs')
  {
    SameFingerprint(storeDir, p, h, s, refs, refs');
    hide FingerprintText, Joined, Plain, AbsoluteAll;
  }

  /** Whether a fingerprint decides every list of references depends on the store directory alone. */
  lemma ReferencesToldApartIff(storeDir: string, p: string, h: string, s: Int64)
    ensures (forall refs, refs' :: FingerprintDecides(storeDir, p, h, s, refs, refs')) <==> !AmbiguousDir(storeDir)
  {
    hide *;
    ToldApartIff(storeDir);
    forall refs, refs'
      ensures FingerprintDecides(storeDir, p, h, s, refs, refs') <==> ToldApart(storeDir, refs, refs')
    {
      DecidesIffToldApart(storeDir, p, h, s, refs, refs');
    }
  }

  // ---- the order of references ---------------------------------------------------------------

  function Without(s: seq<string>, i: nat): seq<string>
    requires i < |s|
  {
    s[..i] + s[i + 1..]
  }

  lemma WithoutOne(s: seq<string>, i: nat)
    requires i < |s|
    ensures multiset(Without(s, i)) == multiset(s) - multiset{s[i]}
    ensures multiset(s) == multiset(Without(s, i)) + multiset{s[i]}
  {
    var front, x, rest := s[..i], [s[i]], s[i + 1..];
    assert Without(s, i) == front + rest;
    hide *;
    assert multiset(front + rest) == multiset(front) + multiset(rest);
    assert s == front + x + rest;
  }

  lemma AbsoluteWithoutOne(dir: string, s: seq<string>, i: nat)
    requires i < |s|
    ensures multiset(AbsoluteAll(dir, s)) == multiset(AbsoluteAll(dir, Without(s, i))) + multiset{Absolute(dir, s[i])}
  {
    assert AbsoluteAll(dir, Without(s, i)) == Without(AbsoluteAll(dir, s), i);
    WithoutOne(AbsoluteAll(dir, s), i);
  }

  lemma {:induction false} AbsolutePermuted(dir: string, a: seq<string>, b: seq<string>)
    requires multiset(a) == multiset(b)
    ensures multiset(AbsoluteAll(dir, a)) == multiset(AbsoluteAll(dir, b))
  {
    assert |multiset(a)| == |a| && |multiset(b)| == |b|;
    if a == [] {
      assert a == b;
    } else {
      assert a[0] in multiset(b);
      var i :| 0 <= i < |b| && b[i] == a[0];
      WithoutOne(a, 0);
      WithoutOne(b, i);
      AbsolutePermuted(dir, Without(a, 0), Without(b, i));
      AbsoluteWithoutOne(dir, a, 0);
      AbsoluteWithoutOne(dir, b, i);
    }
  }

  /** Reordering the references changes nothing, whatever characters they hold. */
  lemma OrderIsForgotten(storeDir: string, p: string, h: string, s: Int64, refs: seq<string>, refs': seq<string>)
    requires multiset(refs) == multiset(refs')
    ensures FingerprintText(storeDir, p, h, s, refs) == FingerprintText(storeDir, p, h, s, refs')
  {
    AbsolutePermuted(storeDir, refs, refs');
    SortCanonical(AbsoluteAll(storeDir, refs), AbsoluteAll(storeDir, refs'));
  }

  lemma SplitTwo(a: string, b: string)
    requires ',' !in a && ',' !in b
    ensures Split(a + [','] + b, ',') == [a, b]
  {
    hide Split;
    SplitAppend(a, b, ',');
    SplitPlain(a);
    SplitPlain(b);
  }

  lemma TwiceA()
    ensures Split("/a,/a/b", ',') == ["/a", "/a/b"] && Ambiguous("/a,/a", "b")
  {
    hide Split, StrLe;
    SplitTwo("/a", "/a/b");
    assert "/a" + [','] + "/a/b" == "/a,/a/b" == "/a,/a" + "/" + "b";
    InOrder();
  }

  lemma InOrder()
    ensures StrLe("/a", "/a/b")
  {
    assert StrLe("", "/b") && "a/b"[1..] == "/b" && "a"[1..] == "";
    assert StrLe("a", "a/b") && "/a"[1..] == "a" && "/a/b"[1..] == "a/b";
  }

  /** A store directory with a comma, and two different lists that look alike in it. */
  lemma CommaInStoreDirCollides(p: string, h: string, s: Int64)
    ensures Plain(["b"]) && Plain(["/a", "/a/b"])
    ensures FingerprintText("/a,/a", p, h, s, ["b"]) == FingerprintText("/a,/a", p, h, s, ["/a", "/a/b"])
    ensures multiset(AbsoluteAll("/a,/a", ["b"])) != multiset(AbsoluteAll("/a,/a", ["/a", "/a/b"]))
  {
    TwiceA();
    assert "/a,/a" + "/" + "b" == "/a,/a/b";
    hide *;
    AmbiguousCollides("/a,/a", "b");
    SameFingerprint("/a,/a", p, h, s, ["b"], ["/a", "/a/b"]);
  }

  // ---- signing and verifying -----------------------------------------------------------------

  function SignatureText(keyName: string, sign: string -> string, fp: string): string
  {
    keyName + ":" + sign(fp)
  }

  datatype Verdict = Valid | NoColon | OtherKey | BadSignature

  /** Verify; check covers decoding the signature as well. */
  function VerifyText(keyName: string, check: (string, string) -> bool, fp: string, sig: string): Verdict
  {
    var i := IndexOf(sig, ':');
    if i == |sig| then NoColon
    else if sig[..i] != keyName then OtherKey
    else if !check(fp, sig[i + 1..]) then BadSignature
    else Valid
  }

  /** Valid is exactly what begins with this key's name and a colon and goes on with a signature that passes. */
  lemma VerifyIff(keyName: string, check: (string, string) -> bool, fp: string, sig: string)
    requires ':' !in keyName
    ensures VerifyText(keyName, check, fp, sig).Valid? <==>
            keyName + ":" <= sig && check(fp, sig[|keyName| + 1..])
    ensures VerifyText(keyName, check, fp, sig).NoColon? <==> ':' !in sig
    ensures VerifyText(keyName, check, fp, sig).OtherKey? <==> ':' in sig && !(keyName + ":" <= sig)
  {
    var i := IndexOf(sig, ':');
    assert sig[..i] + sig[i..] == sig;
    if keyName + ":" <= sig {
      assert sig == keyName + [':'] + sig[|keyName| + 1..];
      IndexAfter(keyName, ':', sig[|keyName| + 1..]);
    }
  }

  function FingerprintOf(dir: string -> string, n: Narinfo): string
  {
    FingerprintText(dir(n.storePath), n.storePath, n.narHash, n.narSize, n.references)
  }

  lemma SignatureChecked(keyName: string, sign: string -> string, check: (string, string) -> bool, fp: string,
                         fp': string)
    requires ':' !in keyName
    ensures VerifyText(keyName, check, fp', SignatureText(keyName, sign, fp)) ==
      if check(fp', sign(fp)) then Valid else BadSignature
  {
    var sig := SignatureText(keyName, sign, fp);
    IndexAfter(keyName, ':', sign(fp));
    assert sig == keyName + [':'] + sign(fp);
    assert sig[..|keyName|] == keyName && sig[|keyName| + 1..] == sign(fp);
  }

  /** A signature that only the text it was made over passes. */
  ghost predicate Faithful(sign: string -> string, check: (string, string) -> bool)
  {
    forall fp, fp' :: check(fp', sign(fp)) <==> fp' == fp
  }

  ghost predicate Separable(dir: string -> string, n: Narinfo)
  {
    ';' !in n.storePath && ';' !in n.narHash && Readable(dir(n.storePath), n.references)
  }

  /**
   A narinfo's signature verifies on another one exactly when they agree on store path,
   hash, size and absolute references, the order of these aside.
   */
  lemma SignatureStandsForContents(dir: string -> string, keyName: string, sign: string -> string,
                                   check: (string, string) -> bool, n: Narinfo, m: Narinfo)
    requires Faithful(sign, check) && ':' !in keyName && Separable(dir, n) && Separable(dir, m)
    ensures VerifyText(keyName, check, FingerprintOf(dir, m),
      SignatureText(keyName, sign, FingerprintOf(dir, n))).Valid? <==>
            && m.storePath == n.storePath && m.narHash == n.narHash && m.narSize == n.narSize
            && multiset(AbsoluteAll(dir(m.storePath), m.references)) ==
              multiset(AbsoluteAll(dir(n.storePath), n.references))
  {
    SignatureChecked(keyName, sign, check, FingerprintOf(dir, n), FingerprintOf(dir, m));
    FingerprintIff(dir, m.storePath, m.narHash, m.narSize, m.references, n.storePath, n.narHash, n.narSize,
      n.references);
  }

  function Signed(dir: string -> string, keyName: string, sign: string -> string, n: Narinfo): Narinfo
  {
    n.(sig := SignatureText(keyName, sign, FingerprintOf(dir, n)))
  }

  /**
   A signature made before the narinfo was printed verifies on what is parsed from the
   text, on what is pulled from its annotations, and on what is parsed from the text
   served by the proxy or the Worker.
   */
  lemma SignatureSurvives(dir: string -> string, keyName: string, sign: string -> string,
                          check: (string, string) -> bool, n: Narinfo)
    requires forall fp :: check(fp, sign(fp))
    requires ':' !in keyName && WellFormed(Signed(dir, keyName, sign, n))
    ensures var signed := Signed(dir, keyName, sign, n);
            && Annotate(signed).Some?
            && forall m :: m in {ParseText(Print(signed)), Pull(Annotate(signed).value),
                                 ParseText(Served(Annotate(signed).value)),
                                   ParseText(WorkerText(Annotate(signed).value))} ==>
                 VerifyText(keyName, check, FingerprintOf(dir, m), m.sig).Valid?
  {
    var signed := Signed(dir, keyName, sign, n);
    PrintersAndReadersAgree(signed);
    SignatureChecked(keyName, sign, check, FingerprintOf(dir, n), FingerprintOf(dir, n));
    assert FingerprintOf(dir, signed) == FingerprintOf(dir, n);
  }
}
