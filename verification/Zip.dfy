/** The reader of stored ZIP archives (sections 4.3.7 and 4.3.12 of the PKWARE APPNOTE) and the
    writer of the fixtures it reads. Sizes and offsets are 64 bits wide. */
module Zip {
  import opened Basics
  import Utf8

  const LOCAL: seq<Byte> := [0x50, 0x4B, 0x03, 0x04]
  const CENTRAL: seq<Byte> := [0x50, 0x4B, 0x01, 0x02]

  /** Inflated bytes the reader holds at once. */
  const INFLATED_CAP: nat := 96 * 1024 * 1024

  /** A member as it stands in an archive: its name, an extra field, how it is compressed, the bytes
      it is kept as, and the size it inflates to. */
  datatype Member = Member(name: seq<Byte>, extra: seq<Byte>, compression: nat, body: seq<Byte>, size: nat)

  /** A member kept as it is. */
  function Stored(name: seq<Byte>, body: seq<Byte>): (m: Member) {
    Member(name, [], 0, body, |body|)
  }

  datatype Located = Located(compression: nat, compressed: nat, uncompressed: nat, dataStart: nat)

  // ---- Little-endian fields ----------------------------------------------------------------

  function Le16(bytes: seq<Byte>, i: nat): (n: nat)
    requires i + 2 <= |bytes|
    ensures n < 0x1_0000
  {
    var b0: int, b1: int := bytes[i], bytes[i + 1];
    b0 + 0x100 * b1
  }

  function Le32(bytes: seq<Byte>, i: nat): (n: nat)
    requires i + 4 <= |bytes|
    ensures n < 0x1_0000_0000
  {
    var b0: int, b1: int, b2: int, b3: int := bytes[i], bytes[i + 1], bytes[i + 2], bytes[i + 3];
    b0 + 0x100 * b1 + 0x1_0000 * b2 + 0x100_0000 * b3
  }

  /** `(n as u16).to_le_bytes()` and `(n as u32).to_le_bytes()` */
  function ToLe16(n: nat): (b: seq<Byte>)
    ensures |b| == 2
  {
    [n % 0x100, n / 0x100 % 0x100]
  }

  function ToLe32(n: nat): (b: seq<Byte>)
    ensures |b| == 4
  {
    [n % 0x100, n / 0x100 % 0x100, n / 0x1_0000 % 0x100, n / 0x100_0000 % 0x100]
  }

  lemma Le16RoundTrip(n: nat)
    requires n < 0x1_0000
    ensures Le16(ToLe16(n), 0) == n
  {
  }

  lemma Le32RoundTrip(n: nat)
    requires n < 0x1_0000_0000
    ensures Le32(ToLe32(n), 0) == n
  {
    assert n == 0x100 * (n / 0x100) + n % 0x100;
    assert n / 0x100 == 0x100 * (n / 0x1_0000) + n / 0x100 % 0x100;
    assert n / 0x1_0000 == 0x100 * (n / 0x100_0000) + n / 0x1_0000 % 0x100;
  }

  // ---- The reader --------------------------------------------------------------------------

  predicate SignatureAt(bytes: seq<Byte>, signature: seq<Byte>, i: nat)
    requires |signature| == 4
  {
    i + 4 <= |bytes| && bytes[i..i + 4] == signature
  }

  /** Where the scan goes on after a local header at `i` whose name is not the one sought. */
  function AfterLocal(bytes: seq<Byte>, i: nat): (next: nat)
    requires i + 30 <= |bytes|
    ensures next > i + 30
  {
    var compressed := Le32(bytes, i + 18);
    i + 30 + Le16(bytes, i + 26) + Le16(bytes, i + 28) + if compressed > 1 then compressed else 1
  }

  predicate LocalNamed(bytes: seq<Byte>, name: seq<Byte>, i: nat)
    requires i + 30 <= |bytes|
  {
    var n := Le16(bytes, i + 26);
    SignatureAt(bytes, LOCAL, i) && i + 30 + n <= |bytes| && bytes[i + 30..i + 30 + n] == name
  }

  function LocatedAt(bytes: seq<Byte>, i: nat): (l: Located)
    requires i + 30 <= |bytes|
  {
    Located(Le16(bytes, i + 8), Le32(bytes, i + 18), Le32(bytes, i + 22),
            i + 30 + Le16(bytes, i + 26) + Le16(bytes, i + 28))
  }

  function LocateFrom(bytes: seq<Byte>, name: seq<Byte>, i: nat): (r: Option<Located>)
    decreases |bytes| - i
  {
    if i + 30 > |bytes| then None
    else if LocalNamed(bytes, name, i) then Some(LocatedAt(bytes, i))
    else LocateFrom(bytes, name, if SignatureAt(bytes, LOCAL, i) then AfterLocal(bytes, i) else i + 1)
  }

  /** Finds a member's local header and where its data begins. */
  method Locate(bytes: seq<Byte>, name: seq<Byte>) returns (r: Option<Located>)
    ensures r == LocateFrom(bytes, name, 0)
  {
    var i := 0;
    while i + 30 <= |bytes|
      invariant LocateFrom(bytes, name, i) == LocateFrom(bytes, name, 0)
      decreases |bytes| - i
    {
      if bytes[i..i + 4] == LOCAL {
        var compressed := Le32(bytes, i + 18);
        var nameLength := Le16(bytes, i + 26);
        var extraLength := Le16(bytes, i + 28);
        var nameStart := i + 30;
        if nameStart + nameLength <= |bytes| && bytes[nameStart..nameStart + nameLength] == name {
          return Some(Located(Le16(bytes, i + 8), compressed, Le32(bytes, i + 22), nameStart + nameLength + extraLength));
        }
        i := nameStart + nameLength + extraLength + (if compressed > 1 then compressed else 1);
      } else {
        i := i + 1;
      }
    }
    r := None;
  }

  datatype ExtractError = NotInArchive | PastTheCap | DidNotInflate | UnknownMethod(code: nat)

  datatype Contents = Contents(bytes: seq<Byte>) | Refused(error: ExtractError)

  /** The raw data of a located member: clipped to the archive, never out of bounds. */
  function RawData(bytes: seq<Byte>, l: Located): (raw: seq<Byte>)
    ensures |raw| <= l.compressed
  {
    var start := if l.dataStart < |bytes| then l.dataStart else |bytes|;
    var end := if l.dataStart + l.compressed < |bytes| then l.dataStart + l.compressed else |bytes|;
    bytes[start..end]
  }

  /** One member's bytes; inflating is someone else's code. */
  method ReadMember(bytes: seq<Byte>, name: seq<Byte>, inflate: (seq<Byte>, nat) -> Option<seq<Byte>>)
    returns (r: Contents)
    ensures r == MemberOf(bytes, name, inflate)
  {
    var found := Locate(bytes, name);
    if found.None? {
      return Refused(NotInArchive);
    }
    var l := found.value;
    if l.uncompressed > INFLATED_CAP {
      return Refused(PastTheCap);
    }
    var raw := RawData(bytes, l);
    if l.compression == 0 {
      return Contents(raw);
    } else if l.compression == 8 {
      var inflated := inflate(raw, l.uncompressed);
      return if inflated.Some? then Contents(inflated.value) else Refused(DidNotInflate);
    }
    r := Refused(UnknownMethod(l.compression));
  }

  function MemberOf(bytes: seq<Byte>, name: seq<Byte>, inflate: (seq<Byte>, nat) -> Option<seq<Byte>>): (r: Contents) {
    match LocateFrom(bytes, name, 0)
    case None => Refused(NotInArchive)
    case Some(l) =>
      if l.uncompressed > INFLATED_CAP then Refused(PastTheCap)
      else if l.compression == 0 then Contents(RawData(bytes, l))
      else if l.compression == 8 then
        match inflate(RawData(bytes, l), l.uncompressed)
        case Some(inflated) => Contents(inflated)
        case None => Refused(DidNotInflate)
      else Refused(UnknownMethod(l.compression))
  }

  function DirectoryFrom(bytes: seq<Byte>, i: nat): (names: seq<seq<Byte>>)
    decreases |bytes| - i
  {
    if i + 46 > |bytes| then []
    else if SignatureAt(bytes, CENTRAL, i) then
      var n := Le16(bytes, i + 28);
      (if i + 46 + n <= |bytes| && Utf8.Valid(bytes[i + 46..i + 46 + n]) then [bytes[i + 46..i + 46 + n]] else [])
      + DirectoryFrom(bytes, i + 46 + n)
    else DirectoryFrom(bytes, i + 1)
  }

  lemma DirectoryStep(bytes: seq<Byte>, i: nat, before: seq<seq<Byte>>, names: seq<seq<Byte>>, next: nat)
    requires i + 46 <= |bytes|
    requires var n := Le16(bytes, i + 28);
             var listed := i + 46 + n <= |bytes| && Utf8.Valid(bytes[i + 46..i + 46 + n]);
             if SignatureAt(bytes, CENTRAL, i)
             then next == i + 46 + n && names == before + if listed then [bytes[i + 46..i + 46 + n]] else []
             else next == i + 1 && names == before
    ensures before + DirectoryFrom(bytes, i) == names + DirectoryFrom(bytes, next)
  {
    hide Utf8.Valid, Le16, SignatureAt;
    var n := Le16(bytes, i + 28);
    var listed := i + 46 + n <= |bytes| && Utf8.Valid(bytes[i + 46..i + 46 + n]);
    var found := if listed then [bytes[i + 46..i + 46 + n]] else [];
    assert before + (found + DirectoryFrom(bytes, i + 46 + n)) == before + found + DirectoryFrom(bytes, i + 46 + n);
  }

  /** Every member name in the central directory. */
  method CentralDirectory(bytes: seq<Byte>) returns (names: seq<seq<Byte>>)
    ensures names == DirectoryFrom(bytes, 0)
  {
    names := [];
    var i := 0;
    while i + 46 <= |bytes|
      invariant names + DirectoryFrom(bytes, i) == DirectoryFrom(bytes, 0)
      decreases |bytes| - i
    {
      ghost var before, at := names, i;
      if bytes[i..i + 4] == CENTRAL {
        var n := Le16(bytes, i + 28);
        var start := i + 46;
        if start + n <= |bytes| && Utf8.Valid(bytes[start..start + n]) {
          names := names + [bytes[start..start + n]];
        }
        i := i + 46 + n;
      } else {
        i := i + 1;
      }
      DirectoryStep(bytes, at, before, names, i);
    }
  }

  // ---- The writer --------------------------------------------------------------------------

  function LocalHeader(m: Member): (b: seq<Byte>)
    ensures |b| == 30
  {
    LOCAL + [20, 0, 0, 0] + ToLe16(m.compression) + [0, 0, 0, 0, 0, 0, 0, 0]
    + ToLe32(|m.body|) + ToLe32(m.size) + ToLe16(|m.name|) + ToLe16(|m.extra|)
  }

  function LocalEntry(m: Member): (b: seq<Byte>)
    ensures |b| == 30 + |m.name| + |m.extra| + |m.body|
  {
    LocalHeader(m) + (m.name + (m.extra + m.body))
  }

  function LocalEntries(members: seq<Member>): (b: seq<Byte>) {
    if members == [] then [] else LocalEntry(members[0]) + LocalEntries(members[1..])
  }

  function CentralHeader(m: Member, offset: nat): (b: seq<Byte>)
    ensures |b| == 46
  {
    CENTRAL + [20, 0, 20, 0, 0, 0] + ToLe16(m.compression) + [0, 0, 0, 0, 0, 0, 0, 0]
    + ToLe32(|m.body|) + ToLe32(m.size) + ToLe16(|m.name|)
    + [0, 0, 0, 0, 0, 0] + [0, 0, 0, 0, 0, 0] + ToLe32(offset)
  }

  function Directory(members: seq<Member>, offset: nat): (b: seq<Byte>) {
    if members == [] then []
    else CentralHeader(members[0], offset) + (members[0].name + Directory(members[1..], offset + |LocalEntry(members[0])|))
  }

  /** A ZIP of members: every local entry, then the central directory. */
  function ZipOf(members: seq<Member>): (bytes: seq<Byte>) {
    LocalEntries(members) + Directory(members, 0)
  }

  // ---- Round trips -------------------------------------------------------------------------

  /** Names and bodies the format's fields can describe. */
  predicate Storable(m: Member) {
    && |m.name| < 0x1_0000 && |m.extra| < 0x1_0000 && m.compression < 0x1_0000
    && |m.body| < 0x1_0000_0000 && m.size < 0x1_0000_0000 && Utf8.Valid(m.name)
  }

  predicate AllStorable(members: seq<Member>) {
    forall k :: 0 <= k < |members| ==> Storable(members[k])
  }

  lemma Le16Within(bytes: seq<Byte>, i: nat, part: seq<Byte>, k: nat)
    requires i + |part| <= |bytes| && bytes[i..i + |part|] == part
    requires k + 2 <= |part|
    ensures Le16(bytes, i + k) == Le16(part, k)
  {
    assert part[k] == bytes[i + k] && part[k + 1] == bytes[i + k + 1];
  }

  lemma Le32Within(bytes: seq<Byte>, i: nat, part: seq<Byte>, k: nat)
    requires i + |part| <= |bytes| && bytes[i..i + |part|] == part
    requires k + 4 <= |part|
    ensures Le32(bytes, i + k) == Le32(part, k)
  {
    assert part[k] == bytes[i + k] && part[k + 1] == bytes[i + k + 1];
    assert part[k + 2] == bytes[i + k + 2] && part[k + 3] == bytes[i + k + 3];
  }

  lemma HeaderFields(m: Member)
    requires Storable(m)
    ensures var h := LocalHeader(m);
            && h[0..4] == LOCAL && Le16(h, 8) == m.compression && Le32(h, 18) == |m.body| && Le32(h, 22) == m.size
            && Le16(h, 26) == |m.name| && Le16(h, 28) == |m.extra|
  {
    hide Le32, ToLe32, Le16, ToLe16;
    var h := LocalHeader(m);
    Le16RoundTrip(m.compression);
    Le32RoundTrip(|m.body|);
    Le32RoundTrip(m.size);
    Le16RoundTrip(|m.name|);
    Le16RoundTrip(|m.extra|);
    Le16Within(h, 8, ToLe16(m.compression), 0);
    Le32Within(h, 18, ToLe32(|m.body|), 0);
    Le32Within(h, 22, ToLe32(m.size), 0);
    Le16Within(h, 26, ToLe16(|m.name|), 0);
    Le16Within(h, 28, ToLe16(|m.extra|), 0);
  }

  /** What the reader sees at the start of a local entry. */
  lemma EntrySeen(pre: seq<Byte>, m: Member, post: seq<Byte>)
    requires Storable(m)
    ensures var bytes, i := pre + (LocalEntry(m) + post), |pre|;
            var data := i + 30 + |m.name| + |m.extra|;
            && i + 30 <= |bytes| && SignatureAt(bytes, LOCAL, i)
            && LocatedAt(bytes, i) == Located(m.compression, |m.body|, m.size, data)
            && (forall name :: LocalNamed(bytes, name, i) <==> name == m.name)
            && RawData(bytes, LocatedAt(bytes, i)) == m.body
            && AfterLocal(bytes, i) == i + |LocalEntry(m)| + if m.body == [] then 1 else 0
  {
    hide Le32, Le16;
    var bytes, i, h := pre + (LocalEntry(m) + post), |pre|, LocalHeader(m);
    HeaderFields(m);
    assert bytes[i..i + 30] == h;
    Le16Within(bytes, i, h, 8);
    Le32Within(bytes, i, h, 18);
    Le32Within(bytes, i, h, 22);
    Le16Within(bytes, i, h, 26);
    Le16Within(bytes, i, h, 28);
    assert bytes[i..i + 4] == h[0..4];
    assert bytes[i + 30..i + 30 + |m.name|] == m.name;
    var data := i + 30 + |m.name| + |m.extra|;
    assert bytes[data..data + |m.body|] == m.body;
  }

  /** The index of the first member of a name. */
  function FirstNamed(members: seq<Member>, name: seq<Byte>): (k: nat)
    ensures k <= |members|
  {
    if members == [] || members[0].name == name then 0 else 1 + FirstNamed(members[1..], name)
  }

  /** What a member is located as. */
  ghost predicate ReadsBack(bytes: seq<Byte>, found: Option<Located>, m: Member) {
    && found.Some?
    && found.value.compression == m.compression
    && found.value.compressed == |m.body| && found.value.uncompressed == m.size
    && RawData(bytes, found.value) == m.body
  }

  /** Headers are found one after the other, whatever the bodies contain, as long as no body is
      empty. */
  lemma {:induction false} LocateMembers(pre: seq<Byte>, members: seq<Member>, post: seq<Byte>, name: seq<Byte>)
    requires AllStorable(members)
    requires forall k :: 0 <= k < FirstNamed(members, name) ==> members[k].body != []
    requires FirstNamed(members, name) < |members|
    ensures var bytes := pre + (LocalEntries(members) + post);
            ReadsBack(bytes, LocateFrom(bytes, name, |pre|), members[FirstNamed(members, name)])
    decreases |members|
  {
    hide LocalEntry, LocatedAt, LocalNamed, RawData, AfterLocal;
    var m, rest := members[0], members[1..];
    var tail := LocalEntries(rest) + post;
    EntrySeen(pre, m, tail);
    Regroup(pre, LocalEntry(m), LocalEntries(rest), post);
    if m.name != name {
      assert forall k :: 0 <= k < |rest| ==> rest[k] == members[k + 1];
      LocateMembers(pre + LocalEntry(m), rest, post, name);
    }
  }

  lemma Regroup(a: seq<Byte>, b: seq<Byte>, c: seq<Byte>, d: seq<Byte>)
    ensures a + ((b + c) + d) == a + (b + (c + d)) == (a + b) + (c + d)
  {
    assert (b + c) + d == b + (c + d);
    assert a + (b + (c + d)) == (a + b) + (c + d);
  }

  /** In an archive whose bodies are not empty, even if they contain header signatures and whatever
      extra fields stand in front of them, each name reads as its first member: the body as it is
      when stored, inflated to its size when deflated, and refused otherwise or past the cap. */
  lemma ZipReadsBack(members: seq<Member>, name: seq<Byte>, inflate: (seq<Byte>, nat) -> Option<seq<Byte>>)
    requires AllStorable(members)
    requires forall k :: 0 <= k < FirstNamed(members, name) ==> members[k].body != []
    requires FirstNamed(members, name) < |members|
    ensures var m, read := members[FirstNamed(members, name)], MemberOf(ZipOf(members), name, inflate);
            && ReadsBack(ZipOf(members), LocateFrom(ZipOf(members), name, 0), m)
            && (m.size > INFLATED_CAP ==> read == Refused(PastTheCap))
            && (m.size <= INFLATED_CAP && m.compression == 0 ==> read == Contents(m.body))
            && (m.size <= INFLATED_CAP && m.compression == 8 ==>
                  match inflate(m.body, m.size)
                  case Some(inflated) => read == Contents(inflated)
                  case None => read == Refused(DidNotInflate))
            && (m.size <= INFLATED_CAP && m.compression !in {0, 8} ==> read == Refused(UnknownMethod(m.compression)))
  {
    hide LocateFrom, LocalEntries, Directory;
    LocateMembers([], members, Directory(members, 0), name);
    assert [] + (LocalEntries(members) + Directory(members, 0)) == ZipOf(members);
  }

  /** In an archive of members kept as they are, none of them empty, each name reads as the body of its
      first member, up to the cap. */
  lemma StoredZipReadsBack(members: seq<Member>, name: seq<Byte>, inflate: (seq<Byte>, nat) -> Option<seq<Byte>>)
    requires AllStorable(members)
    requires forall k :: 0 <= k < |members| ==> members[k] == Stored(members[k].name, members[k].body) && members[k].body != []
    requires FirstNamed(members, name) < |members|
    ensures var body := members[FirstNamed(members, name)].body;
            MemberOf(ZipOf(members), name, inflate) == if |body| > INFLATED_CAP then Refused(PastTheCap) else Contents(body)
  {
    hide MemberOf, ReadsBack;
    ZipReadsBack(members, name, inflate);
  }

  /** A name that no header carries is not in the archive. */
  lemma MissingName(bytes: seq<Byte>, name: seq<Byte>, inflate: (seq<Byte>, nat) -> Option<seq<Byte>>)
    requires forall i: nat :: i + 30 <= |bytes| ==> !LocalNamed(bytes, name, i)
    ensures MemberOf(bytes, name, inflate) == Refused(NotInArchive)
  {
    hide LocalNamed, AfterLocal;
    NothingLocated(bytes, name, 0);
  }

  lemma {:induction false} NothingLocated(bytes: seq<Byte>, name: seq<Byte>, i: nat)
    requires forall k: nat :: k + 30 <= |bytes| ==> !LocalNamed(bytes, name, k)
    ensures LocateFrom(bytes, name, i) == None
    decreases |bytes| - i
  {
    hide LocalNamed, SignatureAt;
    if i + 30 <= |bytes| {
      NothingLocated(bytes, name, if SignatureAt(bytes, LOCAL, i) then AfterLocal(bytes, i) else i + 1);
    }
  }

  // ---- An empty body hides its successor ---------------------------------------------------

  /** The members the scan reaches: the one after an empty body is stepped over. */
  function Visible(members: seq<Member>): (seen: seq<Member>)
    decreases |members|
  {
    if members == [] then []
    else
      [members[0]] + Visible(if members[0].body == [] && |members| > 1 then members[2..] else members[1..])
  }

  /** From `from` on, the local signature stands only at the headers of `members`, which start
      there. */
  ghost predicate Quiet(bytes: seq<Byte>, from: nat, members: seq<Member>) {
    forall i :: i >= from && SignatureAt(bytes, LOCAL, i) ==> IsHeader(members, i - from)
  }

  ghost predicate IsHeader(members: seq<Member>, offset: int) {
    exists k :: 0 <= k < |members| && offset == |LocalEntries(members[..k])|
  }

  lemma {:induction false} SkipSilence(bytes: seq<Byte>, name: seq<Byte>, i: nat, j: nat)
    requires i <= j
    requires forall k :: i <= k < j ==> !SignatureAt(bytes, LOCAL, k)
    ensures LocateFrom(bytes, name, i) == LocateFrom(bytes, name, j)
    decreases j - i
  {
    if i < j {
      if i + 30 <= |bytes| {
        SkipSilence(bytes, name, i + 1, j);
      }
    }
  }

  lemma SilentEnd(bytes: seq<Byte>, name: seq<Byte>, from: nat, i: nat)
    requires from <= i && Quiet(bytes, from, [])
    ensures LocateFrom(bytes, name, i) == None
  {
    SkipSilence(bytes, name, i, if i < |bytes| then |bytes| else i);
  }

  lemma QuietTail(bytes: seq<Byte>, from: nat, members: seq<Member>)
    requires members != [] && Quiet(bytes, from, members)
    ensures Quiet(bytes, from + |LocalEntry(members[0])|, members[1..])
    ensures forall i :: from < i < from + |LocalEntry(members[0])| ==> !SignatureAt(bytes, LOCAL, i)
  {
    var m, rest := members[0], members[1..];
    forall i | i > from && SignatureAt(bytes, LOCAL, i)
      ensures i >= from + |LocalEntry(m)| && IsHeader(rest, i - from - |LocalEntry(m)|)
    {
      var k :| 0 <= k < |members| && i - from == |LocalEntries(members[..k])|;
      assert members[..k] == [m] + rest[..k - 1] by {
        assert k > 0;
      }
      assert ([m] + rest[..k - 1])[1..] == rest[..k - 1];
      assert |LocalEntries(members[..k])| == |LocalEntry(m)| + |LocalEntries(rest[..k - 1])|;
    }
  }

  /** One byte into an entry, the scan runs through to the next one. */
  lemma SteppedOver(bytes: seq<Byte>, name: seq<Byte>, pre: seq<Byte>, members: seq<Member>, post: seq<Byte>)
    requires members != [] && bytes == pre + (LocalEntries(members) + post)
    requires Quiet(bytes, |pre|, members)
    ensures bytes == (pre + LocalEntry(members[0])) + (LocalEntries(members[1..]) + post)
    ensures LocateFrom(bytes, name, |pre| + 1) == LocateFrom(bytes, name, |pre| + |LocalEntry(members[0])|)
    ensures Quiet(bytes, |pre| + |LocalEntry(members[0])|, members[1..])
  {
    hide LocalEntry, LocateFrom, SignatureAt, Quiet;
    QuietTail(bytes, |pre|, members);
    SkipSilence(bytes, name, |pre| + 1, |pre| + |LocalEntry(members[0])|);
    Regroup(pre, LocalEntry(members[0]), LocalEntries(members[1..]), post);
  }

  /** When the signature occurs nowhere but at the headers, a name is found exactly if it names a
      visible member, and then reads as the first such body. */
  lemma {:induction false} LocateVisible(pre: seq<Byte>, members: seq<Member>, post: seq<Byte>, name: seq<Byte>)
    requires AllStorable(members)
    requires Quiet(pre + (LocalEntries(members) + post), |pre|, members)
    ensures var found := LocateFrom(pre + (LocalEntries(members) + post), name, |pre|);
            var seen := Visible(members);
            if FirstNamed(seen, name) < |seen|
            then ReadsBack(pre + (LocalEntries(members) + post), found, seen[FirstNamed(seen, name)])
            else found == None
    decreases |members|
  {
    hide LocalEntry, LocatedAt, LocalNamed, RawData, AfterLocal, SignatureAt, Quiet;
    var bytes := pre + (LocalEntries(members) + post);
    if members == [] {
      SilentEnd(bytes, name, |pre|, |pre|);
    } else {
      var m, rest := members[0], members[1..];
      EntrySeen(pre, m, LocalEntries(rest) + post);
      Regroup(pre, LocalEntry(m), LocalEntries(rest), post);
      QuietTail(bytes, |pre|, members);
      if m.name != name {
        var next := pre + LocalEntry(m);
        if m.body != [] {
          LocateVisible(next, rest, post, name);
        } else if rest == [] {
          SilentEnd(bytes, name, |next|, |next| + 1);
        } else {
          SteppedOver(bytes, name, next, rest, post);
          LocateVisible(next + LocalEntry(rest[0]), rest[1..], post, name);
        }
      }
    }
  }

  /** A name in an otherwise silent archive is found exactly if a visible member carries it. */
  lemma FoundExactlyIfVisible(members: seq<Member>, name: seq<Byte>)
    requires AllStorable(members) && Quiet(ZipOf(members), 0, members)
    ensures LocateFrom(ZipOf(members), name, 0).Some? <==> FirstNamed(Visible(members), name) < |Visible(members)|
  {
    hide LocateFrom, LocalEntries, Directory, Visible, Quiet, FirstNamed;
    assert [] + (LocalEntries(members) + Directory(members, 0)) == ZipOf(members);
    LocateVisible([], members, Directory(members, 0), name);
  }

  /** A member that follows an empty one is not found, although it is in the archive, as long as no
      local signature stands elsewhere. */
  lemma EmptyBodyHidesNext(first: Member, second: Member)
    requires first.body == [] && first.name != second.name && Storable(first) && Storable(second)
    requires Quiet(ZipOf([first, second]), 0, [first, second])
    ensures LocateFrom(ZipOf([first, second]), second.name, 0) == None
  {
    hide LocateFrom, LocalEntries, Directory, Quiet;
    var members := [first, second];
    assert members[2..] == [];
    assert Visible(members) == [members[0]] + Visible([]);
    assert [members[0]] + [] == [members[0]] && [members[0]][1..] == [];
    FoundExactlyIfVisible(members, second.name);
  }

  // ---- The central directory ---------------------------------------------------------------

  lemma CentralHeaderFields(m: Member, offset: nat)
    requires Storable(m)
    ensures var h := CentralHeader(m, offset); h[0..4] == CENTRAL && Le16(h, 28) == |m.name|
  {
    hide ToLe32, Le16, ToLe16;
    var h := CentralHeader(m, offset);
    Le16RoundTrip(|m.name|);
    Le16Within(h, 28, ToLe16(|m.name|), 0);
  }

  function Names(members: seq<Member>): (names: seq<seq<Byte>>) {
    seq(|members|, k requires 0 <= k < |members| => members[k].name)
  }

  lemma {:induction false} DirectoryReadsBack(pre: seq<Byte>, members: seq<Member>, offset: nat)
    requires AllStorable(members)
    ensures DirectoryFrom(pre + Directory(members, offset), |pre|) == Names(members)
    decreases |members|
  {
    hide CentralHeader, DirectoryFrom, LocalEntry, Le16, SignatureAt, Utf8.Valid;
    if members == [] {
      DirectoryEnds(pre);
    } else {
      var m, rest := members[0], members[1..];
      var tail := Directory(rest, offset + |LocalEntry(m)|);
      var bytes := pre + (CentralHeader(m, offset) + (m.name + tail));
      CentralEntrySeen(pre, m, offset, tail);
      DirectoryTakes(bytes, |pre|, m.name);
      DirectoryReadsBack(pre + CentralHeader(m, offset) + m.name, rest, offset + |LocalEntry(m)|);
      assert Names(members) == [m.name] + Names(rest);
    }
  }

  lemma DirectoryEnds(pre: seq<Byte>)
    ensures DirectoryFrom(pre + [], |pre|) == []
  {
  }

  lemma CentralEntrySeen(pre: seq<Byte>, m: Member, offset: nat, post: seq<Byte>)
    requires Storable(m)
    ensures var bytes, i := pre + (CentralHeader(m, offset) + (m.name + post)), |pre|;
            && bytes == (pre + CentralHeader(m, offset) + m.name) + post
            && i + 46 + |m.name| <= |bytes| && bytes[i + 46..i + 46 + |m.name|] == m.name
            && SignatureAt(bytes, CENTRAL, i) && Le16(bytes, i + 28) == |m.name|
  {
    hide Le16, CentralHeader;
    var h := CentralHeader(m, offset);
    var bytes, i := pre + (h + (m.name + post)), |pre|;
    CentralHeaderFields(m, offset);
    assert bytes[i..i + 46] == h;
    Le16Within(bytes, i, h, 28);
    assert bytes[i..i + 4] == h[0..4];
  }

  lemma DirectoryTakes(bytes: seq<Byte>, i: nat, name: seq<Byte>)
    requires i + 46 + |name| <= |bytes| && bytes[i + 46..i + 46 + |name|] == name
    requires SignatureAt(bytes, CENTRAL, i) && Le16(bytes, i + 28) == |name| && Utf8.Valid(name)
    ensures DirectoryFrom(bytes, i) == [name] + DirectoryFrom(bytes, i + 46 + |name|)
  {
    hide Le16, SignatureAt, Utf8.Valid;
  }

  lemma {:induction false} DirectorySkips(bytes: seq<Byte>, i: nat, j: nat)
    requires i <= j
    requires forall k :: i <= k < j ==> !SignatureAt(bytes, CENTRAL, k)
    ensures DirectoryFrom(bytes, i) == DirectoryFrom(bytes, j)
    decreases j - i
  {
    if i < j {
      if i + 46 <= |bytes| {
        DirectorySkips(bytes, i + 1, j);
      }
    }
  }

  /** The central directory lists every name in order, when its signature does not occur in the
      part of the archive before it. */
  lemma ZipLists(members: seq<Member>)
    requires AllStorable(members)
    requires forall i :: 0 <= i < |LocalEntries(members)| ==> !SignatureAt(ZipOf(members), CENTRAL, i)
    ensures DirectoryFrom(ZipOf(members), 0) == Names(members)
  {
    hide DirectoryFrom, LocalEntries, Directory, SignatureAt, Names;
    DirectorySkips(ZipOf(members), 0, |LocalEntries(members)|);
    DirectoryReadsBack(LocalEntries(members), members, 0);
  }

  // ---- Archives in which the signature stands only at the headers --------------------------

  const P: Byte := 0x50

  predicate PlainMember(m: Member) {
    && P !in m.name && P !in m.extra && P !in m.body
    && P !in ToLe16(|m.name|) && P !in ToLe16(|m.extra|) && P !in ToLe16(m.compression)
    && P !in ToLe32(|m.body|) && P !in ToLe32(m.size)
  }

  /** No name, field, body, length or offset holds the byte that the signatures begin with. */
  predicate Plain(members: seq<Member>, offset: nat) {
    members == []
    || (PlainMember(members[0]) && P !in ToLe32(offset) && Plain(members[1..], offset + |LocalEntry(members[0])|))
  }

  lemma TailPlain(e: seq<Byte>, more: seq<Byte>)
    requires e != [] && P !in e[1..] && P !in more
    ensures P !in (e + more)[1..]
  {
    assert (e + more)[1..] == e[1..] + more;
  }

  lemma LocalEntryPlain(m: Member)
    requires PlainMember(m)
    ensures P !in LocalEntry(m)[1..] && |LocalEntry(m)| >= 4 && LocalEntry(m)[..4] == LOCAL
  {
    hide ToLe16, ToLe32;
    var fixed, stamp: seq<Byte> := LOCAL + [20, 0, 0, 0], [0, 0, 0, 0, 0, 0, 0, 0];
    var e := fixed + ToLe16(m.compression);
    TailPlain(fixed, ToLe16(m.compression));
    TailPlain(e, stamp);
    TailPlain(e + stamp, ToLe32(|m.body|));
    TailPlain(e + stamp + ToLe32(|m.body|), ToLe32(m.size));
    TailPlain(e + stamp + ToLe32(|m.body|) + ToLe32(m.size), ToLe16(|m.name|));
    TailPlain(e + stamp + ToLe32(|m.body|) + ToLe32(m.size) + ToLe16(|m.name|), ToLe16(|m.extra|));
    TailPlain(LocalHeader(m), m.name + (m.extra + m.body));
  }

  lemma CentralEntryPlain(m: Member, offset: nat)
    requires PlainMember(m) && P !in ToLe32(offset)
    ensures var e := CentralHeader(m, offset) + m.name; P !in e[1..] && |e| >= 4 && e[..4] == CENTRAL
  {
    hide ToLe16, ToLe32;
    var fixed, stamp: seq<Byte> := CENTRAL + [20, 0, 20, 0, 0, 0], [0, 0, 0, 0, 0, 0, 0, 0];
    var none: seq<Byte> := [0, 0, 0, 0, 0, 0];
    var e := fixed + ToLe16(m.compression);
    TailPlain(fixed, ToLe16(m.compression));
    TailPlain(e, stamp);
    TailPlain(e + stamp, ToLe32(|m.body|));
    TailPlain(e + stamp + ToLe32(|m.body|), ToLe32(m.size));
    var sized := e + stamp + ToLe32(|m.body|) + ToLe32(m.size);
    TailPlain(sized, ToLe16(|m.name|));
    TailPlain(sized + ToLe16(|m.name|), none);
    TailPlain(sized + ToLe16(|m.name|) + none, none);
    TailPlain(sized + ToLe16(|m.name|) + none + none, ToLe32(offset));
    TailPlain(CentralHeader(m, offset), m.name);
  }

  /** In front of `rest`, an entry without the byte beyond its start has a signature at most there. */
  lemma SignatureInEntry(e: seq<Byte>, rest: seq<Byte>, signature: seq<Byte>, i: nat)
    requires |signature| == 4 && signature[0] == P
    requires |e| >= 4 && P !in e[1..] && SignatureAt(e + rest, signature, i)
    ensures (i == 0 && e[..4] == signature) || (i >= |e| && SignatureAt(rest, signature, i - |e|))
  {
    var all := e + rest;
    forall k | 0 < k < |e| ensures all[k] != P {
      assert all[k] == e[1..][k - 1];
    }
    assert all[i] == all[i..i + 4][0];
    if i == 0 {
      assert all[0..4] == e[..4];
    } else if i >= |e| {
      assert all[i..i + 4] == rest[i - |e|..i - |e| + 4];
    }
  }

  lemma {:induction false} DirectoryQuiet(members: seq<Member>, offset: nat, i: nat)
    requires Plain(members, offset)
    ensures !SignatureAt(Directory(members, offset), LOCAL, i)
  {
    hide LocalEntry, CentralHeader, PlainMember;
    if members != [] && SignatureAt(Directory(members, offset), LOCAL, i) {
      var m, next := members[0], offset + |LocalEntry(members[0])|;
      var e, rest := CentralHeader(m, offset) + m.name, Directory(members[1..], next);
      CentralEntryPlain(m, offset);
      assert Directory(members, offset) == e + rest;
      SignatureInEntry(e, rest, LOCAL, i);
      DirectoryQuiet(members[1..], next, if i >= |e| then i - |e| else 0);
    }
  }

  lemma {:induction false} EntriesQuiet(members: seq<Member>, offset: nat, post: seq<Byte>, i: nat)
    requires Plain(members, offset) && forall k: nat :: !SignatureAt(post, LOCAL, k)
    requires SignatureAt(LocalEntries(members) + post, LOCAL, i)
    ensures IsHeader(members, i)
  {
    hide LocalEntry, PlainMember, SignatureAt;
    assert [] + post == post;
    if members != [] {
      var m, rest := members[0], members[1..];
      var e := LocalEntry(m);
      LocalEntryPlain(m);
      assert LocalEntries(members) + post == e + (LocalEntries(rest) + post);
      SignatureInEntry(e, LocalEntries(rest) + post, LOCAL, i);
      if i == 0 {
        assert members[..0] == [] && |LocalEntries(members[..0])| == 0;
      } else {
        EntriesQuiet(rest, offset + |e|, post, i - |e|);
        var k :| 0 <= k < |rest| && i - |e| == |LocalEntries(rest[..k])|;
        assert members[..k + 1][1..] == rest[..k] && members[..k + 1][0] == m;
      }
    }
  }

  lemma {:induction false} EntriesHoldNoCentral(members: seq<Member>, offset: nat, post: seq<Byte>, i: nat)
    requires Plain(members, offset) && i < |LocalEntries(members)|
    ensures !SignatureAt(LocalEntries(members) + post, CENTRAL, i)
  {
    hide LocalEntry, PlainMember, SignatureAt;
    if SignatureAt(LocalEntries(members) + post, CENTRAL, i) {
      var m, rest := members[0], members[1..];
      var e := LocalEntry(m);
      LocalEntryPlain(m);
      assert LocalEntries(members) + post == e + (LocalEntries(rest) + post);
      SignatureInEntry(e, LocalEntries(rest) + post, CENTRAL, i);
      if i >= |e| {
        EntriesHoldNoCentral(rest, offset + |e|, post, i - |e|);
      }
    }
  }

  lemma PlainIsQuiet(members: seq<Member>)
    requires Plain(members, 0)
    ensures Quiet(ZipOf(members), 0, members)
  {
    hide Plain, SignatureAt, LocalEntries, Directory;
    var post := Directory(members, 0);
    forall k: nat ensures !SignatureAt(post, LOCAL, k) {
      DirectoryQuiet(members, 0, k);
    }
    forall i | i >= 0 && SignatureAt(ZipOf(members), LOCAL, i) ensures IsHeader(members, i) {
      EntriesQuiet(members, 0, post, i);
    }
  }

  /** In an archive without stray signature bytes the directory lists every name, in order, and the
      reader finds exactly the names of the visible members. */
  lemma PlainArchiveReads(members: seq<Member>, name: seq<Byte>)
    requires AllStorable(members) && Plain(members, 0)
    ensures DirectoryFrom(ZipOf(members), 0) == Names(members)
    ensures LocateFrom(ZipOf(members), name, 0).Some? <==> FirstNamed(Visible(members), name) < |Visible(members)|
  {
    hide Plain, SignatureAt, LocalEntries, Directory, DirectoryFrom, LocateFrom, FirstNamed, Visible, Quiet, Names;
    PlainIsQuiet(members);
    FoundExactlyIfVisible(members, name);
    forall i | 0 <= i < |LocalEntries(members)| ensures !SignatureAt(ZipOf(members), CENTRAL, i) {
      EntriesHoldNoCentral(members, 0, Directory(members, 0), i);
    }
    ZipLists(members);
  }

  /** The archive of `a`, which is empty, and `b`, which holds one byte: the directory lists both
      names, and `b` is not found. */
  lemma EmptyThenOneByte()
    ensures var bytes := ZipOf([Stored([0x61], []), Stored([0x62], [0x31])]);
            && DirectoryFrom(bytes, 0) == [[0x61], [0x62]]
            && LocateFrom(bytes, [0x61], 0).Some? && LocateFrom(bytes, [0x62], 0) == None
  {
    hide LocateFrom, DirectoryFrom, LocalEntries, Directory, ZipOf;
    var a, b := Stored([0x61], []), Stored([0x62], [0x31]);
    var members := [a, b];
    assert PlainMember(a) && PlainMember(b) && |LocalEntry(a)| == 31;
    assert members[1..] == [b] && [b][1..] == [] && members[2..] == [];
    assert Plain([b], 31) && Plain(members, 0);
    assert Utf8.Valid([0x61]) && Utf8.Valid([0x62]);
    PlainArchiveReads(members, [0x61]);
    PlainArchiveReads(members, [0x62]);
    assert Visible(members) == [a] && [a][1..] == [];
  }
}
