/**
 The certificate bundle splitter of spel/ansible/ca-certs/split_certs.py.

 The bundle text is cut on every literal occurrence of the PEM
 pre-encapsulation boundary for certificates. Each fragment that is not blank
 becomes one output file, named after the fragment's position in the split and
 holding the boundary followed by the fragment, and a `Created` line is logged
 for it. Writing the files and printing are modelled by appending to two
 sequences.
 */
module SplitCerts {
  import opened PyStr
  import opened Format

  /** The certificate boundary of RFC 7468, section 2 and section 5.1. */
  const Marker: string := "-----BEGIN CERTIFICATE-----"

  /** One file the splitter writes: its name and its whole text. */
  datatype OutFile = OutFile(name: string, body: string)

  /** Reads a file name of the form `cert-<two or more digits>.cer` back to its index. */
  function ParseCertName(name: string): Option<nat> {
    if |name| >= 11 && name[..5] == "cert-" && name[|name| - 4..] == ".cer"
       && AllDigits(name[5..|name| - 4])
    then Some(DigitsValue(name[5..|name| - 4]))
    else None
  }

  /** The name `cert-{i:02d}.cer` of the file for fragment `i`. */
  function CertName(i: nat): (r: string)
    ensures |r| >= 11 && r[..5] == "cert-" && r[|r| - 4..] == ".cer"
  {
    "cert-" + Pad2(i) + ".cer"
  }

  /** A file name reads back as the fragment position it was made from. */
  lemma CertNameParses(i: nat)
    ensures ParseCertName(CertName(i)) == Some(i)
  {
    var r := CertName(i);
    Pad2Spec(i);
    assert r[..5] == "cert-" && r[|r| - 4..] == ".cer";
    assert r[5..|r| - 4] == Pad2(i);
  }

  /** Different fragment positions give different file names. */
  lemma CertNameInjective(i: nat, j: nat)
    ensures CertName(i) == CertName(j) <==> i == j
  {
    CertNameParses(i);
    CertNameParses(j);
  }

  /** The positions, below `n`, of the fragments the splitter keeps, in scan order. */
  function KeptBelow(frags: seq<string>, n: nat): (r: seq<nat>)
    requires n <= |frags|
    ensures forall j :: 0 <= j < |r| ==> r[j] < n
  {
    if n == 0 then []
    else KeptBelow(frags, n - 1) + (if IsBlank(frags[n - 1]) then [] else [n - 1])
  }

  /**
   The kept positions are strictly increasing and are exactly the positions of
   the fragments that are not blank.
   */
  lemma {:induction false} KeptBelowExactly(frags: seq<string>, n: nat)
    requires n <= |frags|
    ensures forall a, b :: 0 <= a < b < |KeptBelow(frags, n)| ==> KeptBelow(frags, n)[a] < KeptBelow(frags, n)[b]
    ensures forall i :: 0 <= i < n ==> (i in KeptBelow(frags, n) <==> !IsBlank(frags[i]))
    decreases n
  {
    if n > 0 {
      KeptBelowExactly(frags, n - 1);
    }
  }

  /** One more position is kept exactly when its fragment is not blank. */
  lemma KeptStep(frags: seq<string>, n: nat)
    requires n < |frags|
    ensures KeptBelow(frags, n + 1)
            == KeptBelow(frags, n) + (if IsBlank(frags[n]) then [] else [n])
  {
  }

  /** The files written for the fragments at positions `ks`, in that order. */
  function Render(frags: seq<string>, ks: seq<nat>): seq<OutFile>
    requires forall j :: 0 <= j < |ks| ==> ks[j] < |frags|
  {
    seq(|ks|, j requires 0 <= j < |ks| => OutFile(CertName(ks[j]), Marker + frags[ks[j]]))
  }

  /** Rendering one more kept position appends its file. */
  lemma RenderSnoc(frags: seq<string>, ks: seq<nat>, k: nat)
    requires forall j :: 0 <= j < |ks| ==> ks[j] < |frags|
    requires k < |frags|
    ensures Render(frags, ks + [k]) == Render(frags, ks) + [OutFile(CertName(k), Marker + frags[k])]
  {
  }

  /** The fragments of the bundle, as `content.split(Marker)`. */
  function Fragments(content: string): (r: seq<string>)
    ensures |r| >= 1
  {
    Split(content, Marker)
  }

  /** The files written for the fragments `frags` of a bundle, in the order they are written. */
  function Written(frags: seq<string>): seq<OutFile> {
    Render(frags, KeptBelow(frags, |frags|))
  }

  /** Every file the splitter writes for the bundle `content`, in order. */
  function Outputs(content: string): seq<OutFile> {
    Written(Fragments(content))
  }

  /** The `Created <name>` line printed for each written file, in order. */
  function CreatedLines(outs: seq<OutFile>): seq<string> {
    seq(|outs|, j requires 0 <= j < |outs| => "Created " + outs[j].name)
  }

  lemma CreatedLinesSnoc(outs: seq<OutFile>, o: OutFile)
    ensures CreatedLines(outs + [o]) == CreatedLines(outs) + ["Created " + o.name]
  {
  }

  /**
   The `for i, cert in enumerate(certs)` loop: for each non-blank fragment,
   write `Marker + cert` to `cert-{i:02d}.cer`, then log `Created <name>`.
   */
  method SplitCerts(content: string) returns (outputs: seq<OutFile>, log: seq<string>)
    ensures outputs == Outputs(content)
    ensures |log| == |outputs|
    ensures forall j :: 0 <= j < |log| ==> log[j] == "Created " + outputs[j].name
  {
    var certs := Split(content, Marker);
    outputs, log := [], [];
    for i := 0 to |certs|
      invariant outputs == Render(certs, KeptBelow(certs, i))
      invariant log == CreatedLines(outputs)
    {
      var cert := certs[i];
      KeptStep(certs, i);
      if Strip(cert) != [] {
        var filename := CertName(i);
        var out := OutFile(filename, Marker + cert);
        RenderSnoc(certs, KeptBelow(certs, i), i);
        CreatedLinesSnoc(outputs, out);
        outputs := outputs + [out];
        log := log + ["Created " + filename];
      }
    }
  }

  /**
   A file named after fragment `i` is written exactly when that fragment is not
   blank, and it then holds the boundary followed by the untrimmed fragment.
   */
  lemma WrittenIff(frags: seq<string>, i: nat)
    ensures (exists j :: 0 <= j < |Written(frags)| && Written(frags)[j].name == CertName(i))
            <==> i < |frags| && !IsBlank(frags[i])
    ensures forall j :: (0 <= j < |Written(frags)| && Written(frags)[j].name == CertName(i)
                         ==> Written(frags)[j].body == Marker + frags[i])
  {
    var ks := KeptBelow(frags, |frags|);
    var outs := Written(frags);
    KeptBelowExactly(frags, |frags|);
    forall j | 0 <= j < |outs|
      ensures outs[j].name == CertName(i) <==> ks[j] == i
    {
      assert outs[j].name == CertName(ks[j]);
      CertNameInjective(ks[j], i);
    }
    if i < |frags| && !IsBlank(frags[i]) {
      assert i in ks;
      var j :| 0 <= j < |ks| && ks[j] == i;
      assert outs[j].name == CertName(i);
    }
  }

  /**
   Every written file's name reads back as a fragment position, those positions
   strictly increase in the order the files are written, and so no name repeats.
   */
  lemma WrittenInOrder(frags: seq<string>)
    ensures forall j :: 0 <= j < |Written(frags)| ==> ParseCertName(Written(frags)[j].name).Some?
    ensures forall a, b :: 0 <= a < b < |Written(frags)| ==>
              ParseCertName(Written(frags)[a].name).value < ParseCertName(Written(frags)[b].name).value
    ensures forall a, b :: 0 <= a < b < |Written(frags)| ==>
              Written(frags)[a].name != Written(frags)[b].name
  {
    var ks := KeptBelow(frags, |frags|);
    var outs := Written(frags);
    KeptBelowExactly(frags, |frags|);
    forall j | 0 <= j < |outs|
      ensures ParseCertName(outs[j].name) == Some(ks[j])
    {
      assert outs[j].name == CertName(ks[j]);
      CertNameParses(ks[j]);
    }
    forall a, b | 0 <= a < b < |outs|
      ensures ParseCertName(outs[a].name).value < ParseCertName(outs[b].name).value
    {
      assert ParseCertName(outs[a].name) == Some(ks[a]);
      assert ParseCertName(outs[b].name) == Some(ks[b]);
    }
  }

  /** A blank bundle (including an empty one) is one blank fragment: nothing is written. */
  lemma BlankBundleWritesNothing(content: string)
    requires IsBlank(content)
    ensures Fragments(content) == [content]
    ensures Outputs(content) == []
  {
    forall j | 0 <= j <= |content| - |Marker|
      ensures !OccursAt(content, Marker, j)
    {
      OccurrenceChar(content, Marker, j, 0);
    }
    SplitSingleton(content, Marker);
    assert KeptBelow([content], 1) == [];
  }

  /**
   A bundle that starts with the boundary has an empty first fragment, so no
   file is named after position 0 and numbering starts at 01.
   */
  lemma LeadingMarkerSkipsZero(content: string)
    requires |content| >= |Marker| && content[..|Marker|] == Marker
    ensures Fragments(content)[0] == []
    ensures forall j :: 0 <= j < |Outputs(content)| ==> Outputs(content)[j].name != CertName(0)
  {
    assert OccursAt(content, Marker, 0);
    FindIs(content, Marker, 0);
    SplitAt(content, Marker, 0);
    WrittenIff(Fragments(content), 0);
  }

  /** The boundary followed by each fragment at positions 1 to `n - 1`, in order. */
  function MarkedTail(frags: seq<string>, n: nat): string
    requires n <= |frags|
  {
    if n <= 1 then [] else MarkedTail(frags, n - 1) + Marker + frags[n - 1]
  }

  /** The join of the first `n` fragments is the first fragment and then their marked tail. */
  lemma {:induction false} JoinPrefix(frags: seq<string>, n: nat)
    requires 1 <= n <= |frags|
    ensures Join(frags[..n], Marker) == frags[0] + MarkedTail(frags, n)
    decreases n
  {
    if n > 1 {
      JoinPrefix(frags, n - 1);
      assert frags[..n] == frags[..n - 1] + [frags[n - 1]];
      JoinSnoc(frags[..n - 1], frags[n - 1], Marker);
    }
  }

  /** The concatenated texts of the written files. */
  function Concat(outs: seq<OutFile>): string {
    if outs == [] then [] else Concat(outs[..|outs| - 1]) + outs[|outs| - 1].body
  }

  /**
   Appending one marked fragment on both sides keeps a concatenation equal.
   This and `DropFront` and `Regroup` below are plain concatenation identities,
   stated as lemmas so that each is proved on its own, away from the facts
   about the boundary literal that make the same step expensive inline.
   */
  lemma AppendMarked(prev: string, lead: string, tail: string, frag: string)
    requires prev == lead + tail
    ensures prev + (Marker + frag) == lead + (tail + Marker + frag)
  {
  }

  /** The first fragment alone is written, with its boundary, exactly when it is not blank. */
  lemma ConcatFirst(frags: seq<string>)
    requires 1 <= |frags|
    ensures Concat(Render(frags, KeptBelow(frags, 1)))
            == if IsBlank(frags[0]) then [] else Marker + frags[0]
  {
    KeptStep(frags, 0);
    var o := OutFile(CertName(0), Marker + frags[0]);
    ConcatSingle(o);
    if !IsBlank(frags[0]) {
      RenderSnoc(frags, [], 0);
      assert Render(frags, [0]) == [o];
    } else {
      assert Render(frags, []) == [];
    }
  }

  /** No file concatenates to nothing; one file to its body. */
  lemma ConcatSingle(o: OutFile)
    ensures Concat([]) == [] && Concat([o]) == o.body
  {
    assert [o][..0] == [];
  }

  /** With every fragment after the first kept, the written texts spell out the marked tail. */
  lemma {:induction false} ConcatKept(frags: seq<string>, n: nat)
    requires 1 <= n <= |frags|
    requires forall i :: 1 <= i < n ==> !IsBlank(frags[i])
    ensures Concat(Render(frags, KeptBelow(frags, n)))
            == (if IsBlank(frags[0]) then [] else Marker + frags[0]) + MarkedTail(frags, n)
    decreases n
  {
    var lead := if IsBlank(frags[0]) then [] else Marker + frags[0];
    if n > 1 {
      ConcatKept(frags, n - 1);
      var ks := KeptBelow(frags, n - 1);
      KeptStep(frags, n - 1);
      RenderSnoc(frags, ks, n - 1);
      var outs := Render(frags, ks + [n - 1]);
      assert outs[..|outs| - 1] == Render(frags, ks);
      assert outs[|outs| - 1].body == Marker + frags[n - 1];
      AppendMarked(Concat(Render(frags, ks)), lead, MarkedTail(frags, n - 1), frags[n - 1]);
    } else {
      ConcatFirst(frags);
    }
  }

  /** Cutting off a prefix leaves what followed it (a solver step for `ConcatWritten`). */
  lemma DropFront(a: string, t: string)
    ensures [] + t == t && (a + t)[|a|..] == t
  {
  }

  /** Concatenation regroups freely (a solver step for `ConcatWritten`). */
  lemma Regroup(m: string, a: string, t: string)
    ensures m + (a + t) == (m + a) + t
  {
  }

  /** Joined fragments are the first one followed by the marked tail of all of them. */
  lemma JoinFirstTail(frags: seq<string>)
    requires 1 <= |frags|
    ensures Join(frags, Marker) == frags[0] + MarkedTail(frags, |frags|)
  {
    JoinPrefix(frags, |frags|);
    assert frags[..|frags|] == frags;
  }

  /**
   With every fragment after the first non-blank, the written files
   concatenated in order give back the joined fragments without a blank first
   fragment, or with a boundary prepended when the first fragment is not blank.
   */
  lemma ConcatWritten(frags: seq<string>)
    requires 1 <= |frags|
    requires forall i :: 1 <= i < |frags| ==> !IsBlank(frags[i])
    ensures IsBlank(frags[0]) ==> Concat(Written(frags)) == Join(frags, Marker)[|frags[0]|..]
    ensures !IsBlank(frags[0]) ==> Concat(Written(frags)) == Marker + Join(frags, Marker)
  {
    var tail := MarkedTail(frags, |frags|);
    ConcatKept(frags, |frags|);
    JoinFirstTail(frags);
    if IsBlank(frags[0]) {
      DropFront(frags[0], tail);
    } else {
      Regroup(Marker, frags[0], tail);
    }
  }

  /**
   When every fragment after the first is non-blank, the written files
   concatenated in order give back the bundle without its blank leading text,
   or, if that leading text is not blank, the bundle with a boundary prepended.
   */
  lemma ConcatOutputs(content: string)
    requires forall i :: 1 <= i < |Fragments(content)| ==> !IsBlank(Fragments(content)[i])
    ensures var frags := Fragments(content);
            Concat(Outputs(content))
            == if IsBlank(frags[0]) then content[|frags[0]|..] else Marker + content
  {
    ConcatWritten(Fragments(content));
    JoinSplit(content, Marker);
  }

  /** With a blank first fragment and every later one kept, positions 1 to n - 1 are kept. */
  lemma {:induction false} KeptAllAfterFirst(frags: seq<string>, n: nat)
    requires 1 <= n <= |frags| && IsBlank(frags[0])
    requires forall i :: 1 <= i < n ==> !IsBlank(frags[i])
    ensures KeptBelow(frags, n) == seq(n - 1, j => j + 1)
    decreases n
  {
    KeptStep(frags, n - 1);
    if n > 1 {
      KeptAllAfterFirst(frags, n - 1);
    }
  }

  /**
   Parts joined behind an empty head split back apart when no part contains the
   separator and none but the last runs into the separator that follows it.
   */
  lemma SplitBehindEmptyHead(certs: seq<string>, sep: string)
    requires sep != []
    requires forall k :: 0 <= k < |certs| ==> !Contains(certs[k], sep)
    requires forall k :: 0 <= k < |certs| - 1 ==> EndsCleanly(certs[k], sep)
    ensures Split(Join([""] + certs, sep), sep) == [""] + certs
  {
    var parts := [""] + certs;
    forall i | 0 <= i < |parts| - 1
      ensures EndsCleanly(parts[i], sep)
    {
      if i > 0 {
        assert parts[i] == certs[i - 1];
      }
    }
    assert parts[|parts| - 1] == if certs == [] then "" else certs[|certs| - 1];
    SplitJoin(parts, sep);
  }

  /**
   Certificate texts joined behind a boundary each split back out, provided
   none contains the boundary and none but the last runs into the boundary that
   follows it.
   */
  lemma BundleFragments(certs: seq<string>)
    requires forall k :: 0 <= k < |certs| ==> !Contains(certs[k], Marker)
    requires forall k :: 0 <= k < |certs| - 1 ==> EndsCleanly(certs[k], Marker)
    ensures Fragments(Join([""] + certs, Marker)) == [""] + certs
  {
    SplitBehindEmptyHead(certs, Marker);
  }

  /**
   With a blank first fragment and every later one non-blank, the file for
   fragment k + 1 is the k-th one written.
   */
  lemma WrittenAfterBlankHead(frags: seq<string>)
    requires 1 <= |frags| && IsBlank(frags[0])
    requires forall i :: 1 <= i < |frags| ==> !IsBlank(frags[i])
    ensures |Written(frags)| == |frags| - 1
    ensures forall k :: 0 <= k < |frags| - 1 ==>
              Written(frags)[k] == OutFile(CertName(k + 1), Marker + frags[k + 1])
  {
    KeptAllAfterFirst(frags, |frags|);
  }

  /**
   A bundle of N certificates, each introduced by the boundary and with nothing
   before the first, yields N files named cert-01 to cert-N, each holding one
   certificate with its boundary.
   */
  lemma BundleOfCertificates(certs: seq<string>)
    requires forall k :: 0 <= k < |certs| ==> !IsBlank(certs[k]) && !Contains(certs[k], Marker)
    requires forall k :: 0 <= k < |certs| - 1 ==> EndsCleanly(certs[k], Marker)
    ensures |Outputs(Join([""] + certs, Marker))| == |certs|
    ensures forall k :: 0 <= k < |certs| ==>
              Outputs(Join([""] + certs, Marker))[k] == OutFile(CertName(k + 1), Marker + certs[k])
  {
    var parts := [""] + certs;
    BundleFragments(certs);
    forall i | 1 <= i < |parts|
      ensures !IsBlank(parts[i])
    {
      assert parts[i] == certs[i - 1];
    }
    WrittenAfterBlankHead(parts);
    forall k | 0 <= k < |certs|
      ensures Written(parts)[k] == OutFile(CertName(k + 1), Marker + certs[k])
    {
      assert parts[k + 1] == certs[k];
    }
  }

  /**
   Joins of one and two parts behind an empty head, for any separator (kept
   generic so that the boundary literal stays out of the sequence reasoning).
   */
  lemma JoinOneBehindEmpty(a: string, sep: string)
    ensures Join([""] + [a], sep) == sep + a
  {
    JoinCons("", [a], sep);
    assert [] + sep + a == sep + a;
  }

  lemma JoinTwoBehindEmpty(a: string, b: string, sep: string)
    ensures Join([""] + [a, b], sep) == sep + a + sep + b
  {
    JoinCons("", [a, b], sep);
    assert [a, b] == [a] + [b];
    JoinCons(a, [b], sep);
    assert [] + sep + (a + sep + b) == sep + a + sep + b;
  }

  /** The first two file names, written out. */
  lemma FirstCertNames()
    ensures CertName(1) == "cert-01.cer" && CertName(2) == "cert-02.cer"
  {
    assert Zeros(1) == "0";
    assert Decimal(1) == "1" && Decimal(2) == "2";
  }

  /**
   The two sample certificate texts are not blank, cannot hold the boundary,
   and the first, ending in a line break, cannot run into the next boundary.
   */
  lemma SampleBodies()
    ensures !IsBlank("\nAAA\n") && !Contains("\nAAA\n", Marker)
    ensures !IsBlank("\nBBB\n") && !Contains("\nBBB\n", Marker)
    ensures EndsCleanly("\nAAA\n", Marker)
  {
    assert !IsSpace("\nAAA\n"[1]) && !IsSpace("\nBBB\n"[1]);
    ForeignLastCharEndsCleanly("\nAAA\n", Marker);
  }

  /**
   The two-certificate bundle `Marker + "\nAAA\n" + Marker + "\nBBB\n"` gives
   `cert-01.cer` and `cert-02.cer`, each with its boundary restored.
   */
  lemma TwoCertificateBundle()
    ensures Outputs(Marker + "\nAAA\n" + Marker + "\nBBB\n")
            == [OutFile("cert-01.cer", Marker + "\nAAA\n"), OutFile("cert-02.cer", Marker + "\nBBB\n")]
  {
    var certs := ["\nAAA\n", "\nBBB\n"];
    SampleBodies();
    forall k | 0 <= k < |certs|
      ensures !IsBlank(certs[k]) && !Contains(certs[k], Marker)
    {
      if k == 0 {
        assert certs[k] == "\nAAA\n";
      } else {
        assert certs[k] == "\nBBB\n";
      }
    }
    assert EndsCleanly(certs[0], Marker);
    BundleOfCertificates(certs);
    JoinTwoBehindEmpty(certs[0], certs[1], Marker);
    FirstCertNames();
  }

  /** A certificate whose END line has no final line break. */
  const Unterminated: string := "\nAAA\n-----END CERTIFICATE-----"

  /**
   A bundle whose only certificate lacks a final line break still yields that
   one certificate as `cert-01.cer`, with its boundary restored.
   */
  lemma UnterminatedCertificateBundle()
    ensures Outputs(Marker + Unterminated) == [OutFile("cert-01.cer", Marker + Unterminated)]
  {
    forall j | 0 <= j <= |Unterminated| - |Marker|
      ensures !OccursAt(Unterminated, Marker, j)
    {
      OccurrenceChar(Unterminated, Marker, j, 0);
    }
    assert !IsSpace(Unterminated[1]);
    BundleOfCertificates([Unterminated]);
    JoinOneBehindEmpty(Unterminated, Marker);
    FirstCertNames();
  }
}
