# Skattjakt verification model

Skattjakt reads Swedish annual accounts, looks for tax opportunities in them and shows each one with
the evidence it rests on. The parts modelled here decide without doing I/O: the scanner that reads
amounts off a statement and the printer that writes them, the extraction of facts from a page, the
evidence graph, the fence around document text that goes to a model, the two base64 decoders, the ZIP
reader for Office files, the budget of the model gateway, the job queue protocol with its retry policy,
refresh-token rotation, the set of readings of a report, idempotency keys, truncation of an upload and
organisation numbers.

The modules follow the program:

- `Amounts`, `Money`, `Columns`: the amount scanner, printed money, and rows of columns. `FindAmounts`
  has the loops of the original and computes `Read`, which looks at the text before and after a number
  as the scanner does; every law about reading is about `Read`.
- `Ranges`: rounding, rates, ranges and midpoints in 64 bits.
- `Texts`, `Pages`: whitespace, the label of a line, and the facts of a page.
- `Substrings`, `Fence`: substring search and replacement from left to right, and the document fence.
- `Facts`, `FactSets`: the vocabulary of quantities, and the readings of a report with their index.
- `EvidenceGraph`: the graph, both adjacency indexes, the breadth-first queries, storing and restoring.
- `Base64`, `Utf8`, `Zip`: decoders over bytes, each next to a writer it is the inverse of.
- `Cost`, `Gateway`: integer pricing, the budget, and one request after another.
- `Jobs`, `Queue`: the transition table, the failure policy and the backoff; then the queue's
  statements as steps on one job, interleaved by workers, reaper, scheduler and caller in any order.
- `Sessions`: the decision about a presented refresh token, and what the store then does to the family.
- `Sorting`, `Keys`: idempotency keys and their parser.
- `OrgNumbers`: the checksum, the parser and the printed form.

## What the proofs found

Each of these is proved as an exact condition or shown by a lemma about concrete inputs.

- Columns one space apart merge when the second has no minus and a leading group of three digits, and
  an amount equal to the least 64-bit integer is dropped; every other row reads back
  (`Columns.ColumnsReadBack`).
- A trailing minus also negates the next column when at most one space follows it
  (`Columns.TrailingMinusReach`).
- `div_round_half_away` adds half the divisor before it divides. Close to the ends of 64 bits that sum
  wraps in a release build, so a rate that passes the overflow check can give a result with the wrong
  sign (`Ranges.BasisPointsExactly`), and a midpoint falls outside its range (`Ranges.MidpointExactly`).
- The inputs a calculation lists are not linked into the evidence graph, although the graph is described
  as everything a finding rests on. A listed figure is upstream of the finding if and only if a chain of
  the finding also cites it as a document value (`EvidenceGraph.ListedFiguresUpstream`); an actionable
  chain in which one is missing is `EvidenceGraph.ListedFigureMissing`.
- A contradiction pairs a reading with the first one inserted, not with the canonical reading that
  `get` returns. The two agree if and only if they have the same value and page
  (`FactSets.CanonicalPairing`); three readings where they do not are in `FactSets.PairedWithWeaker`.
- A ZIP member after a member with an empty body is not found: in archives without stray signatures the
  names found are exactly those of the members not stepped over (`Zip.PlainArchiveReads`), and in one of
  two members the second is missed although the directory lists it (`Zip.EmptyThenOneByte`).
- The jitter is described as plus or minus 25 percent; the code only takes away (`Jobs.JitterBounds`).
- A cost component is never short of the exact cost until tokens times price reach
  9 223 372 036 854 000 000; above that it is (`Cost.ComponentCovers`).
- The queue's log records every change of state except the scheduler's release of a backoff: it ends in
  the job's state if and only if the job is not back on the queue after an attempt (`Queue.LogExactly`,
  with a run in `Queue.ReleaseNotLogged`).
- A retry inside the grace window is described as minting nothing. The store rotates the family, so the
  same token presented a third time, even inside the window, signs the customer out
  (`Sessions.ThirdUseTearsDown`). An old token that has itself expired or been revoked is answered
  without revoking the family (`Sessions.ReuseTearsDown`).
- A password change revokes every row but the session's own, so a family that was refreshed before is
  revoked in part. Tokens from before the change no longer give a thief away, and reuse tears the family
  down if and only if the token was issued no earlier than the kept one
  (`Sessions.PasswordChangeKeepsNewest`, `Sessions.ReuseAfterPasswordChange`). If the session is refreshed
  between the authentication of the request and the change, the outdated row is kept and the family
  issues nothing more (`Sessions.OutdatedKeepEndsFamily`).
- `derived` does not cut its document list as `derived_for_order` does: from 18 documents on (17 for
  extraction and simulation) the parser refuses the key that the queue stored (`Keys.DerivedAccepted`).
  The head of an order key has up to 82 characters (`Keys.OrderHeadLength`); the comment says 80.
- Two neighbouring digits of an organisation number can be exchanged unnoticed only when they are equal
  or are 0 and 9 (`OrgNumbers.SwapDetectedExactly`).

## Model

| member | source | states |
|---|---|---|
| Amounts.FindAmounts | skattjakt/crates/extract/src/swedish.rs:171-263 | the scanner terminates inside bounds on every line and returns the amounts of the line in order, as `Read` defines them from the text on both sides of each number |
| Amounts.ReadNumber | skattjakt/crates/extract/src/swedish.rs:182-259 | one number: where it ends, and its amount with sign, groups and öre, or nothing when it does not fit an `i64` |
| Amounts.LookBack | skattjakt/crates/extract/src/swedish.rs:182-203 | a sign counts when it touches the first digit, or is a hyphen or parenthesis one space away, and only then |
| Amounts.ReadInteger | skattjakt/crates/extract/src/swedish.rs:212-231 | the integer part is the longest run of digits followed by separated groups of exactly three |
| Amounts.ReadDecimals | skattjakt/crates/extract/src/swedish.rs:233-241 | a comma and at least one digit make the öre; only the first one rounds |
| Amounts.Decimal | skattjakt/crates/core/src/money.rs:124-124 | decimal notation denotes the number it was made from |
| Money.DisplayMoney | skattjakt/crates/core/src/money.rs:114-133 | the printing loop writes, by position: a minus for exactly the negative amounts, kronor without leading zeros in threes from the comma, two digits of öre and the unit, all digits together denoting the magnitude in öre |
| Money.MoneyPrinted | skattjakt/crates/core/src/money.rs:114-133 | every amount has a printed form that fits that description by position |
| Money.PrintedApart | skattjakt/crates/core/src/money.rs:114-133 | two amounts print the same if and only if they are the same |
| Money.RoundsToNearest | skattjakt/crates/core/src/money.rs:102-112 | the rounded quotient is nearest, and on a tie the one further from zero |
| Money.ReadNumeral | skattjakt/crates/extract/src/swedish.rs:205-240 | a grouped numeral is one number wherever it stands, as long as no digit, group or öre follows it |
| Money.SeparatorsExactly | skattjakt/crates/extract/src/swedish.rs:219-231 | a space, a non-breaking, a narrow non-breaking space and a dot set groups apart, for every number, and no other character does |
| Money.NegativeConventions | skattjakt/crates/extract/src/swedish.rs:182-248 | a leading minus with or without a space, a trailing minus, the Unicode minus and parentheses all give the same negative amount, for every amount, separator and öre |
| Money.ReadMoney | skattjakt/crates/extract/src/swedish.rs:171-263 | a printed amount in the middle of any line reads as that amount rounded to whole kronor, negated when it has no minus of its own and a sign or parenthesis stands in front of it |
| Money.MoneyRoundTrip | skattjakt/crates/core/src/money.rs:114-133 | for every 64-bit amount in öre, reading its printed form gives exactly one value: the amount in whole kronor, halves away from zero |
| Money.MoneyRangeRoundTrip | skattjakt/crates/core/src/money.rs:208-216 | a printed range reads as exactly its two rounded bounds, in order, or as one amount when they are the same |
| Columns.ReadRender | skattjakt/crates/extract/src/swedish.rs:205-230 | what any row of columns reads as: each column swallows the glued ones behind it and nothing else is lost |
| Columns.ColumnsReadBack | skattjakt/crates/extract/src/swedish.rs:205-232 | a row behind a label reads back complete and in order if and only if no column after the first is glued to its predecessor and none is the least `i64` |
| Columns.PerceivedFewer | skattjakt/crates/extract/src/swedish.rs:205-232 | a glued column or the least `i64` always costs the reader at least one amount |
| Columns.FirstColumnExactly | skattjakt/crates/extract/src/swedish.rs:205-232 | the first amount of a row is its first column's if and only if that column is not the least `i64` and nothing is glued to it, or its cluster does not fit and the next amount happens to be equal |
| Columns.TrailingMinusReach | skattjakt/crates/extract/src/swedish.rs:243-248 | a trailing minus negates its own column, and the next one too exactly when fewer than two spaces separate them |
| Ranges.MachineRoundExactly | skattjakt/crates/core/src/money.rs:102-112 | rounding in 64 bits is rounding to the nearest exactly when adding half the divisor does not leave 64 bits; otherwise the sign is lost |
| Ranges.BasisPointsExactly | skattjakt/crates/core/src/money.rs:70-76 | a rate is refused exactly when the product overflows, and applied exactly unless the product is within 5 000 of either end |
| Ranges.NewRange | skattjakt/crates/core/src/money.rs:146-153 | the bounds are the two arguments in order |
| Ranges.AroundIsSymmetric | skattjakt/crates/core/src/money.rs:169-178 | whatever the uncertainty, the range is ordered, holds the value and has it in the middle, at the half-width that was asked for |
| Ranges.AroundRefused | skattjakt/crates/core/src/money.rs:169-178 | a range around a value is refused if and only if the value has no magnitude in 64 bits, the share overflows or a bound does |
| Ranges.AddedRangesHold | skattjakt/crates/core/src/money.rs:180-185 | the sum of two ranges holds exactly the sums of what they hold |
| Ranges.AddRefused | skattjakt/crates/core/src/money.rs:180-185 | a sum of ranges is refused if and only if a bound overflows |
| Ranges.MidpointExactly | skattjakt/crates/core/src/money.rs:191-198 | the midpoint lies in its range exactly when the sum of the bounds stays off the ends of 64 bits |
| Texts.NormaliseSpacing | skattjakt/crates/extract/src/swedish.rs:295-313 | the loop writes the words of the line with one space between them |
| Texts.NormalisedExactly | skattjakt/crates/extract/src/swedish.rs:283-313 | two lines normalise alike if and only if they have the same words, and normalising again changes nothing |
| Texts.TrimExactly | skattjakt/crates/extract/src/swedish.rs:345-372 | trimming takes off the whitespace around a text and nothing else, and leaves none at its ends |
| Texts.WhitespaceExactly | skattjakt/crates/extract/src/swedish.rs:299-299 | the characters taken for spacing, by code |
| Texts.ByteLengthExactly | skattjakt/crates/gateway/src/cost.rs:257-259 | the length that limits and estimates go by is that of the text in UTF-8 |
| Pages.LongestLabelWins | skattjakt/crates/extract/src/swedish.rs:265-326 | a line has a label exactly when no excluding phrase occurs in it and some table entry does, and then the last of the longest such entries decides |
| Pages.ContainsExactly | skattjakt/crates/extract/src/swedish.rs:316-326 | a phrase is found wherever it occurs in the line, at its ends too |
| Pages.SpacingIgnored | skattjakt/crates/extract/src/swedish.rs:283-326 | the spacing of a line never changes its label |
| Pages.ExtractFromPage | skattjakt/crates/extract/src/swedish.rs:334-373 | the loop collects the facts of the lines in order, looking one line ahead where a row was broken |
| Pages.FirstColumnTaken | skattjakt/crates/extract/src/swedish.rs:328-373 | a labelled row gives its first column, the year under analysis, as long as that column is not the least `i64` and nothing is glued to it, whatever columns follow |
| Pages.BrokenRowTaken | skattjakt/crates/extract/src/swedish.rs:343-356 | a row broken after its label gives the first column of the next line on the same condition, provided that line has no label |
| Pages.PrintedMoneyTaken | skattjakt/crates/extract/src/swedish.rs:334-373 | a labelled line that prints an amount gives that amount in whole kronor, negated by a sign or parenthesis at the end of the label |
| Pages.NoAmountTwice | skattjakt/crates/extract/src/swedish.rs:343-356 | two facts of a page never come from one line, their source lines are in order, and each amount is the first on its source line |
| Pages.FactsExactly | skattjakt/crates/extract/src/swedish.rs:334-373 | a fact is extracted if and only if some labelled line gives it |
| Pages.ThousandsExactly | skattjakt/crates/extract/src/swedish.rs:139-145 | in thousands every fact is a thousand times the fact in kronor, or left out when that does not fit |
| Substrings.MatchesNone | skattjakt/crates/gateway/src/injection.rs:231-233 | counting matches from left to right gives zero exactly when there is no occurrence |
| Substrings.FirstMatch | skattjakt/crates/gateway/src/injection.rs:219-232 | the text up to the first match is kept, the match is replaced, and replacing and counting go on behind it |
| Substrings.ReplaceRemoves | skattjakt/crates/gateway/src/injection.rs:219-221 | replacing from left to right leaves no occurrence, when no occurrence can straddle the replacement |
| Fence.FenceHolds | skattjakt/crates/gateway/src/injection.rs:209-224 | for every label and text, and every framing without an angle bracket, a wrapped document has exactly one opening and one closing marker, and the scanner of wrapped bodies reports no attempt |
| Fence.PreambleMustBeFree | skattjakt/crates/gateway/src/injection.rs:231-233 | with any text in front, the block stays the only one if and only if that text holds neither marker |
| Fence.AttemptsExactly | skattjakt/crates/gateway/src/injection.rs:190-201 | the scanner reports nothing if and only if the body has exactly one block or the excess of markers is a positive multiple of 2^32, which no body shorter than 2^32 has |
| Fence.AttemptsCounted | skattjakt/crates/gateway/src/injection.rs:190-201 | how many attempts are reported, by the number of markers of each kind |
| Fence.FencedExactly | skattjakt/crates/gateway/src/injection.rs:216-221 | the fenced text is the text itself if and only if it holds no marker |
| Fence.LabelExactly | skattjakt/crates/gateway/src/injection.rs:209-214 | a label keeps its letters, digits, spaces, hyphens, underscores and full stops, in order, up to 120 of them, and loses every other character |
| Fence.TextSurvives | skattjakt/crates/gateway/src/injection.rs:203-224 | the text comes back out of the block verbatim if and only if it holds no marker; otherwise with its markers replaced |
| EvidenceGraph.EvidenceGraph.AddEdge | skattjakt/crates/core/src/evidence_graph.rs:150-162 | adding an edge keeps both indexes equal to the edge set |
| EvidenceGraph.EvidenceGraph.AddFinding | skattjakt/crates/core/src/evidence_graph.rs:165-233 | after any history of findings the edges are exactly what the chains said, and both indexes agree with them |
| EvidenceGraph.EvidenceGraph.Reindex | skattjakt/crates/core/src/evidence_graph.rs:305-318 | rebuilding gives indexes that agree with the edges, from the edges alone |
| EvidenceGraph.EvidenceGraph.Dependents | skattjakt/crates/core/src/evidence_graph.rs:239-241 | exactly the findings that rest on the node and the analyses they were added under |
| EvidenceGraph.EvidenceGraph.Provenance | skattjakt/crates/core/src/evidence_graph.rs:245-247 | exactly the nodes the node is downstream of |
| EvidenceGraph.EvidenceGraph.AffectedFindings | skattjakt/crates/core/src/evidence_graph.rs:271-279 | exactly the opportunities some added chain of which contains the node |
| EvidenceGraph.EvidenceGraph.AffectedAnalyses | skattjakt/crates/core/src/evidence_graph.rs:283-291 | exactly the analyses those opportunities were added under |
| EvidenceGraph.EvidenceGraph.FindingIsDocumentAnchored | skattjakt/crates/core/src/evidence_graph.rs:297-302 | true if and only if some chain added for the opportunity has a document value |
| EvidenceGraph.StoreAndRestore | skattjakt/crates/core/src/evidence_graph.rs:304-318 | storing nodes and edges and rebuilding the indexes gives back the very same maps |
| EvidenceGraph.Reachable | skattjakt/crates/core/src/evidence_graph.rs:249-268 | the queue loop terminates and marks exactly the nodes reached by one or more links |
| EvidenceGraph.Visit | skattjakt/crates/core/src/evidence_graph.rs:258-265 | unseen neighbours are marked and queued once each |
| EvidenceGraph.ReachesBackwards | skattjakt/crates/core/src/evidence_graph.rs:239-247 | a node is a dependent of another exactly when that one is in its provenance |
| EvidenceGraph.IndexIsUnique | skattjakt/crates/core/src/evidence_graph.rs:305-318 | there is only one index of a set of links, so rebuilding cannot differ from growing |
| EvidenceGraph.LinkMeaning | skattjakt/crates/core/src/evidence_graph.rs:165-233 | every link runs from evidence to a finding whose chain holds it, or from a finding to its analysis, and every such pair is linked |
| EvidenceGraph.EvidenceByFields | skattjakt/crates/core/src/evidence_graph.rs:176-231 | which evidence a finding rests on, by the fields of the chain's items: a rule at its version, a calculation, a model run, an assumption, a quantity of a document version; findings and analyses never are |
| EvidenceGraph.EdgesByKind | skattjakt/crates/core/src/evidence_graph.rs:165-233 | document values, rules and calculations support a finding, judgements and assumptions inform it, a finding is part of its analyses, and there are no other edges |
| EvidenceGraph.Acyclic | skattjakt/crates/core/src/evidence_graph.rs:165-233 | after any history no node reaches itself |
| EvidenceGraph.ReachExactly | skattjakt/crates/core/src/evidence_graph.rs:249-268 | reachability over any number of links is what the chains say, in at most two steps |
| EvidenceGraph.FactNodeIdentity | skattjakt/crates/core/src/fact.rs:113-123 | two document values share a node exactly when they read one quantity off one document version |
| EvidenceGraph.ActionableExactly | skattjakt/crates/core/src/evidence.rs:198-203 | a chain is actionable if and only if it has a document value and a rule |
| EvidenceGraph.ActionableIsAnchored | skattjakt/crates/core/src/evidence.rs:198-203 | an actionable chain leaves its finding anchored in a document, with a rule and a document value upstream |
| EvidenceGraph.CalculationInputsIgnored | skattjakt/crates/core/src/evidence_graph.rs:199-214 | chains that differ only in the inputs of their calculations give the same edges |
| EvidenceGraph.ListedFiguresUpstream | skattjakt/crates/core/src/evidence_graph.rs:199-214 | a figure reaches a finding if and only if a chain of the finding cites it as a document value, and all figures listed by calculations are upstream if and only if all are cited |
| EvidenceGraph.ListedFigureMissing | skattjakt/crates/core/src/evidence_graph.rs:199-214 | an actionable chain whose calculation lists a figure that is not upstream of its finding |
| Facts.KeyInjective | skattjakt/crates/core/src/fact.rs:213-221 | two kinds of quantity never share a key |
| Facts.KeyReadsBack | skattjakt/crates/core/src/fact.rs:213-221 | a key reads back as a kind if and only if it is that kind's key |
| FactSets.FactSet.Insert | skattjakt/crates/core/src/fact.rs:286-301 | no reading is lost, and the index stays at the earliest reading of highest confidence of each kind |
| FactSets.FactSet.Get | skattjakt/crates/core/src/fact.rs:304-306 | the earliest reading of highest confidence, exactly when the kind was read |
| FactSets.FactSet.AllReadings | skattjakt/crates/core/src/fact.rs:313-319 | all readings of the kind, stably sorted, the canonical one first |
| FactSets.FactSet.Contradictions | skattjakt/crates/core/src/fact.rs:347-369 | for each kind exactly its readings that differ from the one inserted first, in order and each once; empty if and only if all readings of each kind agree |
| FactSets.BestIsUnique | skattjakt/crates/core/src/fact.rs:286-301 | a kind has only one canonical reading |
| FactSets.SortedIsStable | skattjakt/crates/core/src/fact.rs:313-319 | the sorted readings descend in confidence and keep their order within one confidence |
| FactSets.StableSortIsUnique | skattjakt/crates/core/src/fact.rs:313-319 | any stable sort gives the same list |
| FactSets.CanonicalFirst | skattjakt/crates/core/src/fact.rs:304-319 | the reading the index points at heads the sorted readings |
| FactSets.ContradictionsExactly | skattjakt/crates/core/src/fact.rs:347-369 | comparing with the first reading finds something exactly when two readings of one kind differ |
| FactSets.ContradictionsGrow | skattjakt/crates/core/src/fact.rs:347-369 | one reading more adds exactly the contradiction between it and the earliest reading of its kind, when their values differ |
| FactSets.CanonicalPairing | skattjakt/crates/core/src/fact.rs:347-369 | the contradictions of a disputed kind are stated against its canonical reading if and only if the reading inserted first has the canonical value and page |
| FactSets.PairedWithWeaker | skattjakt/crates/core/src/fact.rs:347-369 | three readings whose one contradiction is stated against a reading that is not canonical |
| FactSets.DisputedExactly | skattjakt/crates/core/src/fact.rs:347-369 | there is a disputed pair exactly when not all readings agree |
| Base64.BuildLookup | skattjakt/apps/api/src/lib.rs:1061-1065 | the reverse table holds the value of each alphabet character and 255 elsewhere |
| Base64.DecodeBase64 | skattjakt/apps/api/src/lib.rs:1060-1094 | the bit-buffer loop computes the strict decoding, with the 32-bit buffer losing its top bits |
| Base64.LaxBase64 | skattjakt/apps/wasm/src/decode.rs:11-39 | the other loop computes the lax decoding |
| Base64.BytesOfSextets | skattjakt/apps/api/src/lib.rs:1060-1094 | repacking bytes as sextets and back gives the bytes, and the sextets are canonical |
| Base64.SextetsOfBytes | skattjakt/apps/api/src/lib.rs:1060-1094 | repacking canonical sextets as bytes and back gives the sextets |
| Base64.StrictExactly | skattjakt/apps/api/src/lib.rs:1060-1094 | the strict decoder returns some bytes if and only if its input, without whitespace and padding, is their encoding |
| Base64.LaxAgrees | skattjakt/apps/wasm/src/decode.rs:11-39 | what the strict decoder accepts the lax one decodes alike, and it accepts exactly the non-canonical inputs more |
| Base64.IgnoredExactly | skattjakt/apps/api/src/lib.rs:1067-1070 | tab, line feed, form feed, carriage return, space and the padding sign are ignored, and no other byte |
| Base64.WhitespaceIgnored | skattjakt/apps/api/src/lib.rs:1067-1070 | any of the five whitespace bytes may be put anywhere |
| Base64.EncodedIsUnpadded | skattjakt/apps/api/src/api_tests.rs:456-480 | the chunk-wise encoder writes the unpadded encoding plus padding |
| Base64.EncodedDecodes | skattjakt/apps/api/src/api_tests.rs:456-480 | encoding and then decoding gives the bytes back in both decoders, whatever whitespace the text picks up |
| Utf8.PrefixValidExactly | skattjakt/crates/extract/src/lib.rs:197-206 | a prefix of well-formed UTF-8 is well formed if and only if it ends at a character boundary |
| Utf8.CharIsEncoded | skattjakt/crates/extract/src/lib.rs:197-206 | every character recognised is the encoding of a scalar value |
| Utf8.EncodedIsOne | skattjakt/crates/extract/src/lib.rs:197-206 | every scalar value is recognised as one character, whatever follows |
| Utf8.TailExactly | skattjakt/crates/extract/src/lib.rs:200-200 | the bytes at which the text is not cut are those whose two highest bits are 10 |
| Utf8.BoundaryNearby | skattjakt/crates/extract/src/lib.rs:197-206 | a boundary lies at most three bytes below any position |
| Utf8.ReadWithin | skattjakt/crates/extract/src/lib.rs:190-206 | the part that is read is a prefix within the budget; of well-formed text it is well formed and at most three bytes short of the budget |
| Zip.Locate | skattjakt/crates/extract/src/office.rs:188-216 | the scan terminates in bounds on arbitrary bytes and finds the first header of the name it passes over |
| Zip.ReadMember | skattjakt/crates/extract/src/office.rs:162-185 | stored data is the clipped slice, deflated data what the inflater makes of it, anything else an error |
| Zip.CentralDirectory | skattjakt/crates/extract/src/office.rs:137-156 | the scan terminates in bounds and returns the names of the headers it passes over |
| Zip.StoredZipReadsBack | skattjakt/crates/extract/src/lib.rs:603-642 | in an archive of stored members with non-empty bodies, whatever those contain, each name reads as the body of its first member, up to the cap |
| Zip.ZipReadsBack | skattjakt/crates/extract/src/office.rs:162-216 | with extra fields, either compression and any sizes: the first member of a name is located with its own fields, read as it is when stored, inflated to its size when deflated, and refused for another method or past the cap |
| Zip.MissingName | skattjakt/crates/extract/src/office.rs:163-164 | a name that no header carries is reported as not in the archive |
| Zip.LocateMembers | skattjakt/crates/extract/src/office.rs:188-216 | headers are found one after the other even when bodies contain header signatures, whatever their extra fields |
| Zip.FoundExactlyIfVisible | skattjakt/crates/extract/src/office.rs:188-216 | with empty bodies allowed and no stray signature, a name is found if and only if a member not behind an empty one carries it |
| Zip.EmptyBodyHidesNext | skattjakt/crates/extract/src/office.rs:196-210 | the member after an empty one is in the archive and is not found, when no local signature stands outside the two headers |
| Zip.PlainArchiveReads | skattjakt/crates/extract/src/office.rs:137-216 | when no name, body, length or offset holds the byte 0x50, the directory lists every name and the names found are exactly those of members not behind an empty one |
| Zip.EmptyThenOneByte | skattjakt/crates/extract/src/office.rs:196-210 | an archive of two members whose directory lists both and whose second is not found |
| Zip.ZipLists | skattjakt/crates/extract/src/office.rs:137-156 | the directory lists every name in order when its signature does not occur before it |
| Cost.ComponentCovers | skattjakt/crates/gateway/src/cost.rs:46-63 | a component covers its exact cost if and only if tokens times price is at most 9 223 372 036 854 000 000, and is never a whole unit above it |
| Cost.TowardsZero | skattjakt/crates/gateway/src/cost.rs:46-63 | the division drops the fraction, whichever the sign |
| Cost.WorstCaseIs | skattjakt/crates/gateway/src/cost.rs:241-248 | the worst case is the cost of the estimated input and the whole output allowance |
| Cost.NeverUnderReports | skattjakt/crates/gateway/src/cost.rs:46-63 | below saturation a call is charged at least what it costs and less than four units more |
| Cost.CostMonotone | skattjakt/crates/gateway/src/cost.rs:46-63 | more tokens of any kind never cost less, saturated or not |
| Cost.SplittingSavesNothing | skattjakt/crates/gateway/src/cost.rs:46-63 | splitting a call's usage over two calls never costs less |
| Cost.Budget.constructor | skattjakt/crates/gateway/src/cost.rs:157-164 | a new budget has spent and called nothing |
| Cost.Budget.Resumed | skattjakt/crates/gateway/src/cost.rs:176-183 | a resumed budget starts from the stored counters |
| Cost.Budget.Check | skattjakt/crates/gateway/src/cost.rs:202-210 | a call is refused for its number first and for its worst case second, and nothing changes |
| Cost.Budget.Charge | skattjakt/crates/gateway/src/cost.rs:213-216 | one more call in 32 bits, and the cost added without ever falling |
| Cost.Budget.ChargeFailed | skattjakt/crates/gateway/src/cost.rs:221-223 | a failed call counts like any other |
| Gateway.ModelGateway.Run | skattjakt/crates/gateway/src/gateway.rs:207-395 | one request: it succeeds if and only if it is admitted and answered by the asked model or an allowed stand-in; a document outside its one block is refused as such; what is not admitted leaves the budget unchanged |
| Gateway.ErrorsExactly | skattjakt/crates/gateway/src/gateway.rs:207-360 | each error has its exact cause: the fence before the price, that before the number of calls, that before the money, and then the provider's answer |
| Gateway.SuccessExactly | skattjakt/crates/gateway/src/gateway.rs:319-395 | success is exactly an admitted request answered by the asked model or an allowed stand-in; the result says which, and the cost is what was charged |
| Gateway.BudgetMoves | skattjakt/crates/gateway/src/gateway.rs:207-395 | a request that is not admitted leaves the budget as it is; an admitted one is one more call |
| Gateway.EstimateErrsHigh | skattjakt/crates/gateway/src/cost.rs:250-259 | the estimate is more than a third of the bytes, by at most one token, until it fills 32 bits |
| Gateway.InputEstimateExactly | skattjakt/crates/gateway/src/gateway.rs:250-253 | the estimate of a request is the sum of its texts' if and only if that fits 32 bits |
| Gateway.OneCall | skattjakt/crates/gateway/src/gateway.rs:207-395 | a request that reaches the provider is counted, stays within the call ceiling and exceeds the limit by at most its own overrun |
| Gateway.ServedModelCharged | skattjakt/crates/gateway/src/gateway.rs:361-369 | an answer is charged at least what its usage costs at the price of the model that served it, and less than four units more, even when the fallback is refused |
| Gateway.FailureCharged | skattjakt/crates/gateway/src/cost.rs:218-223 | a failed call is counted and charged its estimated input, to within four units |
| Gateway.RefusedStandInCharged | skattjakt/crates/gateway/src/gateway.rs:326-359 | a stand-in that is refused and has no price is charged like a failed call |
| Gateway.WithinEstimateNoOverrun | skattjakt/crates/gateway/src/cost.rs:241-248 | usage within the estimate, without cache tokens and from the requested model, never overruns its pre-flight worst case |
| Gateway.CeilingHolds | skattjakt/crates/gateway/src/gateway.rs:207-395 | over every run, new or resumed: calls count exactly the requests that reached the provider, never pass the maximum, and spending exceeds the limit by at most the overrun of the last of them |
| Gateway.SpendingWithinLimit | skattjakt/crates/gateway/src/gateway.rs:207-395 | when every answer stays within its estimate, no run spends past the limit |
| Gateway.ResumeIsContinuation | skattjakt/crates/gateway/src/cost.rs:173-183 | stopping anywhere and resuming from the stored counters is the same as going on |
| Gateway.WrappedDocumentPasses | skattjakt/crates/gateway/src/gateway.rs:217-223 | a wrapped document passes the gateway's fence check if and only if the text in front of it holds no marker |
| Jobs.TerminalExactly | skattjakt/crates/core/src/state_machine.rs:55-64 | a state is terminal exactly when nothing leaves it and exactly when a finished status is reported; it can be cancelled exactly when it is not terminal |
| Jobs.ReportedExactly | skattjakt/crates/core/src/state_machine.rs:55-64 | only success is reported as succeeded, only a queued job as pending, and a retry as running |
| Jobs.EventsExactly | skattjakt/crates/core/src/state_machine.rs:206-239 | the transition table by its columns: the one state each event leads to, and the states that accept it |
| Jobs.NominalDoubles | skattjakt/crates/jobs/src/job.rs:127-132 | the delay starts at the base, doubles from attempt to attempt sixteen times at most, and stops at the ceiling |
| Jobs.SeedsApart | skattjakt/crates/jobs/src/job.rs:132-141 | the lowest seed takes a quarter off, and from a second on two different seeds never wait the same time |
| Jobs.ScheduleOfEachKind | skattjakt/crates/jobs/src/job.rs:73-106 | the waits between the attempts of each kind of job, and the ceilings they stop at |
| Jobs.LeaseOfEachKind | skattjakt/crates/jobs/src/job.rs:60-70 | the length of each kind's lease, which is longer than its first wait |
| Jobs.JitterBounds | skattjakt/crates/jobs/src/job.rs:127-141 | a delay is between three quarters of its nominal value and that value, hence never above the ceiling; a nominal delay of nothing waits one millisecond |
| Jobs.DelayMonotone | skattjakt/crates/jobs/src/job.rs:127-141 | a later attempt of the same job never waits less |
| Queue.ApplyKeeps | skattjakt/crates/jobs/src/queue.rs:153-487 | claim, heartbeat, report, crash, cancellation, release and reaping all keep the invariant of the row, the snapshots and the log |
| Queue.RunKeeps | skattjakt/crates/jobs/src/queue.rs:153-487 | so does every interleaving of them; every logged move is one of the table, and the log is a path to the current state but for released backoffs |
| Queue.ClaimExactly | skattjakt/crates/jobs/src/queue.rs:153-209 | a queued job whose time has come is leased to the claimant with one more attempt, on record; nothing else is |
| Queue.HeartbeatExactly | skattjakt/crates/jobs/src/queue.rs:211-231 | the holder's lease starts again from now; nobody else's heartbeat changes anything |
| Queue.CancelExactly | skattjakt/crates/jobs/src/queue.rs:263-315 | an unfinished job is cancelled with its lease given up and on record; a finished one is not |
| Queue.ReleaseExactly | skattjakt/crates/jobs/src/queue.rs:401-410 | a job whose backoff is over is queued, and nothing else changes |
| Queue.ReapExactly | skattjakt/crates/jobs/src/queue.rs:418-487 | a lease that has run out is taken back with the same attempt and on record, for a retry half a minute later or to the dead letters after the last attempt; in every other state nothing changes |
| Queue.AbandonedJobFinishes | skattjakt/crates/jobs/src/queue.rs:397-487 | whatever became of its workers, an unfinished job in a reachable state can be brought to success by the sweeps, time and one idle worker, or to the dead letters if its last attempt was running |
| Queue.LogExactly | skattjakt/crates/jobs/src/queue.rs:401-410 | over every run the log ends in the job's state if and only if the job is not queued again after an attempt |
| Queue.ReleaseNotLogged | skattjakt/crates/jobs/src/queue.rs:401-410 | a claim, a transient failure, the wait and the release leave the job queued and the log retrying |
| Queue.AttemptsBounded | skattjakt/crates/jobs/src/queue.rs:153-209 | a job is claimed at most as often as its policy allows, and is dead-lettered at most once, only with every attempt used |
| Queue.ApplyDescends | skattjakt/crates/core/src/state_machine.rs:206-239 | every change of state strictly lowers a measure |
| Queue.ChangesBounded | skattjakt/crates/core/src/state_machine.rs:206-239 | however long the run, a job changes state at most four times per attempt and once more |
| Queue.FinishedStays | skattjakt/crates/core/src/state_machine.rs:93-101 | a finished job's row, log and dead letters never change again |
| Queue.WaitsItsTime | skattjakt/crates/jobs/src/queue.rs:153-209 | in every run a waiting job is not claimed before its time, and until then can only be cancelled |
| Queue.LeaseHolds | skattjakt/crates/jobs/src/queue.rs:211-231 | a live lease is exclusive over every run: until it runs out, only the holder's own report or a cancellation ends it |
| Queue.StaleReportRefused | skattjakt/crates/jobs/src/queue.rs:317-395 | a worker whose lease was taken away writes nothing |
| Queue.HolderReports | skattjakt/crates/jobs/src/job.rs:330-338 | the holder's report is always a legal move, judged by the attempt that is really running, and a retry waits at least three quarters of its nominal delay |
| Sessions.ForClient | skattjakt/crates/identity/src/session.rs:42-58 | the grace is shorter than an access token's life, and that shorter than a refresh token's |
| Sessions.LifetimesOfEachClient | skattjakt/crates/identity/src/session.rs:42-58 | a quarter of an hour, half a day and half a minute on the web; half an hour, thirty days and a minute on a phone |
| Sessions.RefreshExactly | skattjakt/crates/store/src/identity.rs:356-495 | what any presentation does to the rows of a reachable family: nothing, one more generation, or revocation of all, by the presented row's own revocation and expiry and the newest row's |
| Sessions.ApplyKeeps | skattjakt/crates/store/src/identity.rs:356-829 | presentation, sign-out, password change and purge keep the generations consecutive, all but the newest superseded at their successor's issue, and expiries in order |
| Sessions.RunKeeps | skattjakt/crates/store/src/identity.rs:356-829 | so does every run of them with a clock that does not go back |
| Sessions.SignOutExactly | skattjakt/crates/store/src/identity.rs:579-607 | signing out revokes every row that was not, now, and changes nothing else |
| Sessions.SignedOutForGood | skattjakt/crates/store/src/identity.rs:579-607 | after signing out, in every run, all rows are revoked, no pair is issued, no access token authenticates and every presentation answers Revoked |
| Sessions.ChangePasswordExactly | skattjakt/crates/store/src/identity.rs:765-773 | a password change revokes every row but the kept one, and changes nothing else |
| Sessions.PurgeExactly | skattjakt/crates/store/src/identity.rs:819-829 | a purge deletes exactly the rows that expired before its cutoff |
| Sessions.NewestLives | skattjakt/crates/store/src/identity.rs:502-578 | sign-in and each refresh issue a pair that lives as long as the policy says |
| Sessions.RotatedAwayOnce | skattjakt/crates/store/src/identity.rs:502-578 | over every run a generation's expiry never changes, it is superseded at most once and revoked at most once, and a purged one does not come back |
| Sessions.ReuseTearsDown | skattjakt/crates/identity/src/session.rs:104-145 | after a member's presentation the whole family is revoked if and only if it already was, or the token is neither revoked nor expired and is two generations old, or one generation old past the grace |
| Sessions.RevokedForever | skattjakt/crates/store/src/identity.rs:356-495 | once the newest generation is revoked no run issues a pair and no access token authenticates; once the whole family is, every row that is left answers Revoked |
| Sessions.OnlyNewestAuthenticates | skattjakt/crates/store/src/identity.rs:309-328 | at most one access token of a family authenticates: the newest one's, if and only if it is not revoked and not expired and its user still a member |
| Sessions.PairsAreGenerations | skattjakt/crates/store/src/identity.rs:502-578 | over every run the newest generation's number rises by exactly the pairs issued, as long as the family is not purged |
| Sessions.PurgeIsInvisible | skattjakt/crates/store/src/identity.rs:819-829 | deleting expired rows never changes whether a presentation issues a pair |
| Sessions.ThirdUseTearsDown | skattjakt/crates/store/src/identity.rs:430-475 | in every run from sign-in, after three presentations of one token that is neither revoked nor expired nothing is issued any more, and the whole family is revoked unless a password change kept an outdated row |
| Sessions.ThirdUseHappens | skattjakt/crates/store/src/identity.rs:430-475 | three presentations of the first token at once: two pairs, then the whole family revoked |
| Sessions.ReuseAfterPasswordChange | skattjakt/crates/store/src/identity.rs:747-777 | after a password change that kept the newest generation, in every run to the next one, reuse leaves the whole family revoked if and only if it already was, or the token is from the kept generation or later, unexpired and not fresh |
| Sessions.PasswordChangeKeepsNewest | skattjakt/crates/store/src/identity.rs:765-773 | sign-in, one refresh, a password change: the first row is revoked and answered without effect, the second issues |
| Sessions.OutdatedKeepEndsFamily | skattjakt/crates/store/src/identity.rs:765-773 | the same with a refresh between authentication and change: the first row is kept, the newest is revoked, and no run issues again |
| Sorting.SortedIsUnique | skattjakt/crates/jobs/src/job.rs:214-215 | only one arrangement of the same strings is sorted |
| Keys.ParseExactly | skattjakt/crates/jobs/src/job.rs:196-208 | the parser returns a key if and only if the value is that key with whitespace around it, 8 to 200 allowed characters long |
| Keys.KeyCharsExactly | skattjakt/crates/jobs/src/job.rs:201-206 | the allowed characters, by code |
| Keys.HexExactly | skattjakt/crates/jobs/src/job.rs:214-214 | an identifier is written in the lower-case hexadecimal digits |
| Keys.DerivedExactly | skattjakt/crates/jobs/src/job.rs:213-225 | two unpaid keys are equal if and only if kind and scope are and the first eight characters of the documents agree as multisets |
| Keys.OrderOfDocumentsIgnored | skattjakt/crates/jobs/src/job.rs:210-273 | neither derivation depends on the order of the documents |
| Keys.OrderKeyDetermines | skattjakt/crates/jobs/src/job.rs:236-273 | an order's key determines its kind, scope and order |
| Keys.PaidIsNeverUnpaid | skattjakt/crates/jobs/src/job.rs:227-273 | an order's key is never the key of an unpaid request |
| Keys.OrderKeyAccepted | skattjakt/crates/jobs/src/job.rs:251-273 | an order's key is accepted unchanged by the parser for any number of documents |
| Keys.DerivedAccepted | skattjakt/crates/jobs/src/job.rs:213-225 | an unpaid key is accepted if and only if it names at most 17 documents (16 for extraction and simulation), and otherwise refused for its length |
| Keys.OrderHeadLength | skattjakt/crates/jobs/src/job.rs:251-262 | the head of an order key has 72 characters and the kind's name, up to 82 |
| OrgNumbers.LuhnIsValid | skattjakt/crates/core/src/company.rs:81-92 | the loop accepts exactly the digit strings whose weighted sum ends in zero |
| OrgNumbers.StandardOnEvenLengths | skattjakt/crates/core/src/company.rs:81-92 | on even lengths, doubling from the left is the standard's doubling from the right |
| OrgNumbers.SingleChangeDetected | skattjakt/crates/core/src/company.rs:81-92 | no two valid strings of any length differ in a single digit |
| OrgNumbers.SwapDetectedExactly | skattjakt/crates/core/src/company.rs:81-92 | exchanging two neighbours goes unnoticed if and only if they are equal or are 0 and 9 |
| OrgNumbers.OneCheckDigit | skattjakt/crates/core/src/company.rs:81-92 | exactly one check digit completes a number |
| OrgNumbers.Parse | skattjakt/crates/core/src/company.rs:20-42 | the parser reads the ten digits, or twelve with the century prefix, and otherwise says how many there were or that the checksum is wrong |
| OrgNumbers.ReadsBack | skattjakt/crates/core/src/company.rs:49-51 | a printed number reads back, with or without the prefix, if and only if its checksum is right |
| OrgNumbers.ReadIsCanonical | skattjakt/crates/core/src/company.rs:20-51 | whatever is read is valid and reads back from its own printed form |
| OrgNumbers.TyposRefused | skattjakt/crates/core/src/company.rs:20-51 | one mistyped digit of a printed number is always refused, and so are exchanged neighbours unless equal or 0 and 9 |

## Left out

- The contents of the label table, the excluding phrases and the injection patterns, and `detect_scale`: tables and one-branch lookups. The label lemmas hold for every table; lower-casing is a parameter.
- `str::lines`: a page is given as its lines.
- Unicode's alphanumeric table in the fence's source line: a parameter that holds neither the angle bracket nor the line feed.
- The wording of the standing instruction in front of a wrapped document: a parameter without an angle bracket whose first character is in neither marker. The program's own text begins with a capital I and holds no angle bracket.
- The order in which sets are listed: `affected_findings` and `affected_analyses` are sets, and contradictions are in order within a kind only.
- The version, flag, time and checksum bytes of a ZIP header, which the reader skips, are those of the fixture.
- Inflating a deflated member: a function parameter of the reader. Lossy UTF-8 decoding of a member and the parsing of its XML are not modelled.
- Zip.Locate: does not model a 32-bit `usize`, because the model's offsets are the unbounded sums that 64-bit offsets amount to.
- The step that decodes a truncated upload, file types, pages and languages: they follow the truncation and do not decide it.
- Confidence is a real number; not-a-number does not occur among readings.
- Identifiers are opaque: numbers in the graph, 32 hexadecimal characters in the keys. Random generation and hashing of tokens are not modelled; a token is the row its hash finds.
- Debug builds panic where release builds wrap; release is modelled.
- The queue compares a job's times with the worker's clock in one statement and the database's in another; one clock stands for both.
- Jobs.JitterBounds: does not model a product that overflows 64 bits, because the policies in use keep the backoff ceiling far below that.
- The prompt-injection scanner's counts, metrics, logs, spans and the provider client around a gateway request: the provider is whatever answer it gives.
- Gateway.CeilingHolds: requires prices that are not negative, because the price list refuses others when it is loaded.
- Enqueueing, row-level security, listing jobs and dead letters, the queue depth metric: SQL around the modelled row. SQL errors are not modelled.
- Payment sweeps and what a job does between claim and report: only its outcome reaches the queue.
- Sessions: the rows of one family are changed by one transaction at a time. The store locks only the presented row, so two transactions that present different tokens of one family may overlap; that is not modelled.
- Sessions: one clock stands for the application's and the database's, and generations are unbounded where the column is a 32-bit integer.
- The store presents no token from a future generation, because a token is found through its row; the policy's branch for it is in the model and is not reached.
- Devices, role lookups and switching company: membership at a rotation is a parameter of the step. Signing a user out everywhere is a sign-out of the family.
- HTTP handlers, cookies, the user interface, payments, roles, data classification, SHA-256, scoring: outside the parts modelled.
- The statements of the queue and of the session store are composed as functions on values, because each is one atomic statement or transaction on rows of a database.
