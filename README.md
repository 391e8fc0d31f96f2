# split_certs: splitting a PEM certificate bundle

`spel/ansible/ca-certs/split_certs.py` reads a bundle of concatenated PEM
certificates and cuts it on every literal occurrence of the certificate
boundary `-----BEGIN CERTIFICATE-----` (RFC 7468, sections 2 and 5.1), as
Python's `str.split` does. For each fragment with at least one
non-whitespace character it writes `cert-NN.cer`, where `NN` is the
fragment's position in the split, zero-padded to at least two digits. The
file holds the boundary followed by the untrimmed fragment. The script then
prints `Created cert-NN.cer`.

The model has three modules:

- `PyStr` models the two Python string operations the script calls, over
  `seq<char>`: `split` for a non-empty separator (`Split`) and `strip()`
  with Python 3's full `str.isspace` table (`Strip`). `Find` (the leftmost
  search inside `split`), `Count` (`str.count`) and `Join` (`str.join`) are
  reference definitions used to state and prove the split's properties.
- `Format` covers `format(i, '02d')` for non-negative `i`.
- `SplitCerts` covers the boundary constant and the file names. It gives the
  script's result as functions (`Fragments`, `Written`, `Outputs`). The
  `for i, cert in enumerate(certs)` loop is the method `SplitCerts`. It
  appends one `OutFile(name, body)` per write to `outputs` and one
  `Created` line per print to `log`, and it is proved equal to `Outputs`.

## Model

| member | source | states |
|---|---|---|
| PyStr.Split | spel/ansible/ca-certs/split_certs.py:4 | `content.split(sep)`: cuts at the leftmost occurrence found by `Find` and splits the rest; it always yields at least one fragment. With `PyStr.JoinSplit`, `PyStr.SplitPiecesFree` and `PyStr.SplitPiecesClean` it is a decomposition of `s` whose pieces are free of `sep` and, all but the last, end cleanly before it; `PyStr.SplitJoin` shows that such a decomposition is the split, so these lemmas fix it |
| PyStr.FindSpec | spel/ansible/ca-certs/split_certs.py:4 | `Find` returns the leftmost occurrence of the separator, and returns none exactly when the separator does not occur |
| PyStr.JoinSplit | spel/ansible/ca-certs/split_certs.py:4 | joining the fragments of `s.split(sep)` with `sep` gives back `s` exactly |
| PyStr.SplitPiecesFree | spel/ansible/ca-certs/split_certs.py:4 | no fragment of a split contains the separator |
| PyStr.SplitPiecesClean | spel/ansible/ca-certs/split_certs.py:4 | every fragment but the last ends cleanly: the fragment followed by the separator contains no occurrence before the one the split cut at, so the cut is the leftmost one |
| PyStr.SplitLength | spel/ansible/ca-certs/split_certs.py:4 | a split has exactly `s.count(sep) + 1` fragments |
| PyStr.CountFree | spel/ansible/ca-certs/split_certs.py:4 | text without the separator counts zero occurrences |
| PyStr.SplitSingleton | spel/ansible/ca-certs/split_certs.py:4 | the split is `[s]` if and only if the separator does not occur in `s`, so an empty or boundary-free bundle is one fragment |
| PyStr.SplitJoin | spel/ansible/ca-certs/split_certs.py:4 | splitting parts joined with `sep` gives the parts back, provided no part contains `sep` and the join creates no occurrence earlier than the one it inserts |
| PyStr.ForeignLastCharEndsCleanly | spel/ansible/ca-certs/split_certs.py:4 | a separator-free part whose last character is not used by the separator cannot run into the separator appended after it |
| PyStr.Strip | spel/ansible/ca-certs/split_certs.py:7 | `cert.strip()` is empty exactly when the fragment is all whitespace; otherwise it starts and ends with non-whitespace |
| PyStr.StripIsTrimmed | spel/ansible/ca-certs/split_certs.py:7 | `strip()` returns a middle slice of the fragment with only whitespace cut off at either end |
| Format.Pad2 | spel/ansible/ca-certs/split_certs.py:8 | `{i:02d}`: at least two characters, all digits; `Format.Pad2Spec` fixes its value |
| Format.DecimalValue | spel/ansible/ca-certs/split_certs.py:8 | the decimal digits of `i` read back as `i` |
| Format.Pad2Spec | spel/ansible/ca-certs/split_certs.py:8 | `{i:02d}` is all digits, reads back as `i`, is at least two wide, exactly two below 100, and has no zero padding when wider than two |
| SplitCerts.CertName | spel/ansible/ca-certs/split_certs.py:8 | `f'cert-{i:02d}.cer'`: at least 11 characters, starting with `cert-` and ending with `.cer` |
| SplitCerts.CertNameParses | spel/ansible/ca-certs/split_certs.py:8 | `cert-{i:02d}.cer` has the `cert-` prefix, the `.cer` suffix and digits between them that read back as `i` |
| SplitCerts.CertNameInjective | spel/ansible/ca-certs/split_certs.py:8 | two positions give the same file name if and only if they are equal |
| SplitCerts.KeptBelowExactly | spel/ansible/ca-certs/split_certs.py:6-7 | the positions the loop writes strictly increase, and a position is among them if and only if its fragment is not blank |
| SplitCerts.SplitCerts | spel/ansible/ca-certs/split_certs.py:4-11 | the loop writes exactly `Outputs(content)` in order, and logs one `Created <name>` line per written file, naming that file |
| SplitCerts.WrittenIff | spel/ansible/ca-certs/split_certs.py:6-10 | a file named after position `i` is written if and only if fragment `i` exists and is not blank; its body is the boundary followed by the untrimmed fragment, including for a non-blank first fragment that had no boundary before it |
| SplitCerts.WrittenInOrder | spel/ansible/ca-certs/split_certs.py:6-8 | every written name reads back as a position, those positions strictly increase in write order, and no name repeats |
| SplitCerts.BlankBundleWritesNothing | spel/ansible/ca-certs/split_certs.py:4-7 | an empty or whitespace-only bundle is one fragment and writes no file, so the loop also logs nothing |
| SplitCerts.LeadingMarkerSkipsZero | spel/ansible/ca-certs/split_certs.py:4-8 | a bundle starting with the boundary has an empty first fragment, so no file is named `cert-00.cer` |
| SplitCerts.ConcatWritten | spel/ansible/ca-certs/split_certs.py:6-10 | if every fragment after the first is non-blank, the written bodies concatenated are the joined fragments, without a blank first fragment or with a boundary before a non-blank one |
| SplitCerts.ConcatOutputs | spel/ansible/ca-certs/split_certs.py:4-10 | under the same condition, the written bodies concatenated give back the bundle without its blank leading text, or the bundle with a boundary prepended when that text is not blank |
| SplitCerts.SplitBehindEmptyHead | spel/ansible/ca-certs/split_certs.py:4 | parts joined behind an empty head split back into the empty head and the parts, provided no part contains the separator and none but the last runs into the separator after it |
| SplitCerts.BundleFragments | spel/ansible/ca-certs/split_certs.py:4 | certificate texts, each behind a boundary, split into an empty fragment followed by the texts, under the same proviso for the boundary |
| SplitCerts.WrittenAfterBlankHead | spel/ansible/ca-certs/split_certs.py:6-10 | with a blank first fragment and no later blank one, the k-th written file is `cert-{k+1:02d}.cer` with fragment k + 1 |
| SplitCerts.BundleOfCertificates | spel/ansible/ca-certs/split_certs.py:4-10 | a bundle of N non-blank certificate texts, each behind a boundary and with nothing before the first, yields exactly N files, `cert-01.cer` to `cert-N.cer`, each holding its text with its boundary; the texts must not contain the boundary, and none but the last may run into the boundary after it, so the last may end without a line break |
| SplitCerts.TwoCertificateBundle | spel/ansible/ca-certs/split_certs.py:4-10 | a two-certificate bundle yields exactly `cert-01.cer` and `cert-02.cer` with the expected bodies |
| SplitCerts.UnterminatedCertificateBundle | spel/ansible/ca-certs/split_certs.py:4-10 | a bundle whose one certificate ends in its END line with no final line break yields exactly `cert-01.cer` holding it with its boundary |

## Left out

- Reading `all_certs.pem` (lines 1-2) is file I/O. The bundle text is the method's input.
- Creating or overwriting `cert-NN.cer` and printing (lines 9-11) are file-system and console effects. They are modelled as appending to the `outputs` and `log` sequences.
- Text-mode decoding and newline translation when reading and writing files are not modelled. The model works on the decoded characters.
- Operating-system errors are not modelled. These include a missing input file and an unwritable output file, and files already written are not rolled back.
- Python's `ValueError` for an empty separator cannot happen here, because the separator is a fixed non-empty literal. `PyStr` requires a non-empty separator.
- No PEM or X.509 meaning is modelled: base64 content, the END boundary and chain order. The script only does a literal substring split.
- SplitCerts.ConcatOutputs: assumes every fragment after the first is non-blank. Without that, the bodies concatenated do not give back the bundle minus its blank leading text. For example, two boundaries in a row produce an empty fragment, and no file is written for it, so that boundary is lost.
- PyStr.SplitJoin and SplitCerts.BundleOfCertificates: these need every part but the last to end cleanly before the boundary that follows it. Python's split cuts differently when a part ends in text that, together with the following boundary, forms an earlier boundary. `PyStr.ForeignLastCharEndsCleanly` gives an easy sufficient test: the part ends in a character the boundary does not use, such as a line break. The last part needs only to be free of the boundary, so a bundle whose last certificate has no final line break is covered.
