/** Names, identities and addresses of the behaviour tree (habitus/behavior/model.py and
    habitus/foundation/ids.py). What depends on Unicode tables comes in as a parameter. */
module Names {
  import opened Orders
  import opened Timestamps

  /** NFC normalisation around case folding, the stem form that reserved names are looked up by, and which
      characters are printable. */
  datatype Unicode = Unicode(fold: string -> string, reservedStem: string -> bool, printable: char -> bool)

  predicate IsSpace(c: char) {
    var n := c as int;
    9 <= n <= 13 || 28 <= n <= 32 || n in {0x85, 0xA0, 0x1680, 0x2028, 0x2029, 0x202F, 0x205F, 0x3000} || 0x2000 <= n <= 0x200A
  }

  predicate StartsWith(s: string, prefix: string) { prefix <= s }

  predicate EndsWith(s: string, suffix: string) {
    |suffix| <= |s| && s[|s| - |suffix|..] == suffix
  }

  /** Nothing that stripping white space would take away. */
  predicate Stripped(s: string) {
    s == "" || (!IsSpace(s[0]) && !IsSpace(s[|s| - 1]))
  }

  function Utf8Size(c: char): nat {
    var n := c as int;
    if n < 0x80 then 1 else if n < 0x800 then 2 else if n < 0x1_0000 then 3 else 4
  }

  function Utf8Bytes(s: string): nat {
    if s == "" then 0 else Utf8Size(s[0]) + Utf8Bytes(s[1..])
  }

  const MAX_IDENTITY_BYTES := 200
  const SUFFIX_BYTES := 28
  const MAX_NAME_BYTES := MAX_IDENTITY_BYTES - SUFFIX_BYTES

  predicate ForbiddenChar(c: char) { c in "<>:\"|?*/\\" || (c as int) < 32 }

  predicate SafeSegment(u: Unicode, s: string) {
    && s != "" && s != "." && s != ".."
    && (forall c :: c in s ==> !ForbiddenChar(c))
    && !EndsWith(s, " ") && !EndsWith(s, ".")
    && !u.reservedStem(s)
  }

  function CanonicalIdentity(u: Unicode, s: string): Option<string> {
    if SafeSegment(u, s) && SafeSegment(u, u.fold(s)) then Some(u.fold(s)) else None
  }

  predicate Presentable(u: Unicode, s: string) {
    Stripped(s) && forall c :: c in s ==> u.printable(c)
  }

  /** A name that can be shown and addressed. */
  predicate SemanticName(u: Unicode, s: string) {
    && SafeSegment(u, s)
    && Presentable(u, s)
    && CanonicalIdentity(u, s).Some?
    && var identity := CanonicalIdentity(u, s).value;
       && !StartsWith(identity, ".")
       && Utf8Bytes(identity) <= MAX_NAME_BYTES
       && !EndsWith(identity, ".md")
       && identity != ".abstract" && identity != ".overview"
  }

  /** What is asked of canonicalisation: done twice it is the same as once, and it keeps a name presentable. */
  ghost predicate Lawful(u: Unicode) {
    && (forall s :: u.fold(u.fold(s)) == u.fold(s))
    && (forall s :: Presentable(u, s) ==> Presentable(u, u.fold(s)))
  }

  datatype NameError = BadName | BadTime(error: StampError) | TooLong

  const SEPARATOR := "--"

  function IdentityName(u: Unicode, name: string, startedAt: Stamp): Result<string, NameError> {
    if !SemanticName(u, name) then Err(BadName)
    else if LocalTimestamp(startedAt).Err? then Err(BadTime(LocalTimestamp(startedAt).error))
    else
      var identity := CanonicalIdentity(u, name).value + SEPARATOR + Format(startedAt);
      if Utf8Bytes(identity) > MAX_IDENTITY_BYTES then Err(TooLong) else Ok(identity)
  }

  /** Where the last separator starts. */
  function LastSeparator(s: string): Option<nat> {
    if |s| < 2 then None
    else if s[|s| - 2..] == SEPARATOR then Some(|s| - 2)
    else LastSeparator(s[..|s| - 1])
  }

  function SplitIdentity(u: Unicode, s: string): Option<(string, Stamp)> {
    var at := LastSeparator(s);
    LastSeparatorWithin(s);
    if at.None? then None
    else
      var name, timestamp := s[..at.value], s[at.value + 2..];
      if name == "" || timestamp == "" || !SemanticName(u, name) then None
      else
        var startedAt := Parse(timestamp);
        if startedAt.None? then None else Some((name, startedAt.value))
  }

  lemma {:induction false} LastSeparatorWithin(s: string)
    ensures var at := LastSeparator(s);
            at.Some? ==> at.value + 2 <= |s| && s[at.value..at.value + 2] == SEPARATOR
  {
    if |s| >= 2 && s[|s| - 2..] != SEPARATOR {
      LastSeparatorWithin(s[..|s| - 1]);
      var at := LastSeparator(s);
      if at.Some? {
        assert s[..|s| - 1][at.value..at.value + 2] == s[at.value..at.value + 2];
      }
    }
  }

  // ---- Split inverts build ----

  /** No two dashes stand side by side, and the first character is not a dash. */
  predicate NoDoubleDash(s: string) {
    (s != "" ==> s[0] != '-') && forall i :: 0 <= i < |s| - 1 ==> !(s[i] == '-' && s[i + 1] == '-')
  }

  /** A text without double dashes, put after a separator, leaves that separator the last one, whatever
      comes before it. */
  lemma {:induction false} LastSeparatorIs(name: string, tail: string)
    requires NoDoubleDash(tail)
    ensures LastSeparator(name + SEPARATOR + tail) == Some(|name|)
  {
    var s := name + SEPARATOR + tail;
    if tail == "" {
      assert s[|s| - 2..] == SEPARATOR;
    } else {
      var front := tail[..|tail| - 1];
      assert s[..|s| - 1] == name + SEPARATOR + front;
      LastSeparatorIs(name, front);
      assert s[|s| - 1] == tail[|tail| - 1];
      if |tail| == 1 {
        assert s[|s| - 1] != '-';
      } else {
        assert s[|s| - 2] == tail[|tail| - 2];
      }
      assert s[|s| - 2..] == [s[|s| - 2], s[|s| - 1]];
    }
  }

  lemma FormatHasNoDoubleDash(s: Stamp)
    requires ValidStamp(s) && WholeMinutes(s)
    ensures NoDoubleDash(Format(s)) && Utf8Bytes(Format(s)) == 26
  {
    FormatFields(s);
    var text := Format(s);
    forall i | 0 <= i < 26 ensures text[i] == '-' ==> i == 21 {
      assert i < 8 ==> text[i] == text[..8][i];
      assert 9 <= i < 21 ==> text[i] == text[9..21][i - 9];
      assert 22 <= i ==> text[i] == text[22..][i - 22];
    }
    forall i | 0 <= i < 26 ensures (text[i] as int) < 128 {
      assert i < 8 ==> text[i] == text[..8][i];
      assert 9 <= i < 21 ==> text[i] == text[9..21][i - 9];
      assert 22 <= i ==> text[i] == text[22..][i - 22];
    }
    AsciiBytes(text);
  }

  lemma {:induction false} AsciiBytes(s: string)
    requires forall i :: 0 <= i < |s| ==> (s[i] as int) < 128
    ensures Utf8Bytes(s) == |s|
  {
    if s != "" {
      AsciiBytes(s[1..]);
    }
  }

  lemma {:induction false} BytesAppend(a: string, b: string)
    ensures Utf8Bytes(a + b) == Utf8Bytes(a) + Utf8Bytes(b)
  {
    if a == "" {
      assert a + b == b;
    } else {
      BytesAppend(a[1..], b);
      assert (a + b)[0] == a[0] && (a + b)[1..] == a[1..] + b;
    }
  }

  lemma LocalIsWhole(s: Stamp)
    requires LocalTimestamp(s).Ok?
    ensures WholeMinutes(s)
  {
  }

  /** The name budget leaves exactly room for the suffix: the final length check never fires. */
  lemma IdentityNeverTooLong(u: Unicode, name: string, startedAt: Stamp)
    requires ValidStamp(startedAt)
    ensures IdentityName(u, name, startedAt).Ok? <==>
            && SemanticName(u, name)
            && startedAt.offset.Some? && startedAt.offset.value % 60_000_000 == 0 && startedAt.offset.value != 0
    ensures IdentityName(u, name, startedAt).Ok? ==> Utf8Bytes(IdentityName(u, name, startedAt).value) <= 200
  {
    if SemanticName(u, name) && LocalTimestamp(startedAt).Ok? {
      LocalIsWhole(startedAt);
      FormatHasNoDoubleDash(startedAt);
      var identity := CanonicalIdentity(u, name).value;
      BytesAppend(identity + SEPARATOR, Format(startedAt));
      BytesAppend(identity, SEPARATOR);
      AsciiBytes(SEPARATOR);
    }
  }

  /** A part of a path that every file system takes. */
  predicate Portable(u: Unicode, part: string) {
    && part != "" && part != "." && part != ".."
    && (forall c :: c in part ==>
         c != '<' && c != '>' && c != ':' && c != '"' && c != '|' && c != '?' && c != '*' && c != '/' && c != '\\' && c as int >= 32)
    && part[|part| - 1] != ' ' && part[|part| - 1] != '.'
    && !u.reservedStem(part)
  }

  lemma SafeIsPortable(u: Unicode, part: string)
    ensures SafeSegment(u, part) <==> Portable(u, part)
  {
    if part != "" {
      assert part[|part| - 1..] == [part[|part| - 1]];
    }
  }

  /** A name is taken exactly when it and its canonical form are portable, it has no white space around it and nothing
      unprintable in it, and its canonical form is not hidden, leaves room for the timestamp in 200 bytes and has no file
      ending. The names of the layer files need no test of their own: they are hidden. */
  lemma NamesAreExactly(u: Unicode, name: string)
    ensures SemanticName(u, name) <==>
      && Portable(u, name) && Portable(u, u.fold(name))
      && !IsSpace(name[0]) && !IsSpace(name[|name| - 1]) && (forall c :: c in name ==> u.printable(c))
      && u.fold(name)[0] != '.' && Utf8Bytes(u.fold(name)) + 28 <= 200 && !EndsWith(u.fold(name), ".md")
  {
    SafeIsPortable(u, name);
    SafeIsPortable(u, u.fold(name));
    if Portable(u, u.fold(name)) {
      HiddenNames(u.fold(name));
    }
  }

  lemma HiddenNames(part: string)
    requires part != ""
    ensures StartsWith(part, ".") <==> part[0] == '.'
    ensures part == ".abstract" || part == ".overview" ==> part[0] == '.'
  {
    assert part[..1] == [part[0]];
  }

  /** A canonical name is a name, and is its own canonical form. */
  lemma CanonicalIsStable(u: Unicode, name: string)
    requires Lawful(u) && SemanticName(u, name)
    ensures SemanticName(u, u.fold(name)) && CanonicalIdentity(u, u.fold(name)) == Some(u.fold(name))
  {
  }

  lemma SplitJoined(u: Unicode, name: string, text: string)
    requires SemanticName(u, name) && NoDoubleDash(text) && text != "" && Parse(text).Some?
    ensures SplitIdentity(u, name + SEPARATOR + text) == Some((name, Parse(text).value))
  {
    LastSeparatorIs(name, text);
    var s := name + SEPARATOR + text;
    assert s[..|name|] == name && s[|name| + 2..] == text;
  }

  lemma TimeReadsBack(startedAt: Stamp)
    requires ValidStamp(startedAt) && LocalTimestamp(startedAt).Ok?
    ensures NoDoubleDash(Format(startedAt)) && Format(startedAt) != "" && Parse(Format(startedAt)) == Some(startedAt)
  {
    LocalIsWhole(startedAt);
    ParseOfFormat(startedAt);
    FormatHasNoDoubleDash(startedAt);
  }

  lemma IdentityIs(u: Unicode, name: string, startedAt: Stamp)
    requires IdentityName(u, name, startedAt).Ok?
    ensures SemanticName(u, name) && LocalTimestamp(startedAt).Ok? && startedAt.offset.Some?
    ensures IdentityName(u, name, startedAt).value == u.fold(name) + SEPARATOR + Format(startedAt)
  {
  }

  lemma CanonicalSplits(u: Unicode, canonical: string, startedAt: Stamp)
    requires SemanticName(u, canonical) && ValidStamp(startedAt) && LocalTimestamp(startedAt).Ok?
    ensures startedAt.offset.Some?
    ensures SplitIdentity(u, canonical + SEPARATOR + Format(startedAt)) == Some((canonical, startedAt))
  {
    TimeReadsBack(startedAt);
    SplitJoined(u, canonical, Format(startedAt));
  }

  /** Splitting an identity gives back the canonical name and the time, dashes in the name or not. */
  lemma SplitInvertsBuild(u: Unicode, name: string, startedAt: Stamp)
    requires Lawful(u) && ValidStamp(startedAt) && IdentityName(u, name, startedAt).Ok?
    ensures SplitIdentity(u, IdentityName(u, name, startedAt).value) == Some((u.fold(name), startedAt))
  {
    IdentityIs(u, name, startedAt);
    CanonicalIsStable(u, name);
    CanonicalSplits(u, u.fold(name), startedAt);
  }

  /** A text splits into a name and a time exactly when it is a name, taken as names are, and then the separator and the
      time as it is written. */
  lemma SplitsExactlyWhen(u: Unicode, s: string, name: string, startedAt: Stamp)
    ensures SplitIdentity(u, s) == Some((name, startedAt)) <==>
      SemanticName(u, name) && ValidStamp(startedAt) && WholeMinutes(startedAt) && s == name + SEPARATOR + Format(startedAt)
  {
    if SplitIdentity(u, s) == Some((name, startedAt)) {
      SplitIsWritten(u, s, name, startedAt);
    }
    if SemanticName(u, name) && ValidStamp(startedAt) && WholeMinutes(startedAt) && s == name + SEPARATOR + Format(startedAt) {
      WrittenSplits(u, name, startedAt);
    }
  }

  lemma SplitIsWritten(u: Unicode, s: string, name: string, startedAt: Stamp)
    requires SplitIdentity(u, s) == Some((name, startedAt))
    ensures SemanticName(u, name) && ValidStamp(startedAt) && WholeMinutes(startedAt)
    ensures s == name + SEPARATOR + Format(startedAt)
  {
    var at := SplitParts(u, s, name, startedAt);
    ParsedIsFormatted(s[at + 2..]);
    assert s == s[..at] + s[at..at + 2] + s[at + 2..];
  }

  lemma SplitParts(u: Unicode, s: string, name: string, startedAt: Stamp) returns (at: nat)
    requires SplitIdentity(u, s) == Some((name, startedAt))
    ensures at + 2 <= |s| && s[..at] == name && s[at..at + 2] == SEPARATOR && Parse(s[at + 2..]) == Some(startedAt)
    ensures SemanticName(u, name)
  {
    LastSeparatorWithin(s);
    at := LastSeparator(s).value;
  }

  lemma WrittenSplits(u: Unicode, name: string, startedAt: Stamp)
    requires SemanticName(u, name) && ValidStamp(startedAt) && WholeMinutes(startedAt)
    ensures SplitIdentity(u, name + SEPARATOR + Format(startedAt)) == Some((name, startedAt))
  {
    ParseOfFormat(startedAt);
    FormatHasNoDoubleDash(startedAt);
    SplitJoined(u, name, Format(startedAt));
  }

  // ---- Addresses ----

  datatype Kind = Occurrence | GapKind

  /** An address as its constructor leaves it: the identity name is the one derived from name and time. */
  datatype Address = Address(kind: Kind, occurredOn: Date, name: string, startedAt: Stamp, identityName: string)

  function NewAddress(u: Unicode, kind: Kind, occurredOn: Date, name: string, startedAt: Stamp): Option<Address> {
    var identity := IdentityName(u, name, startedAt);
    if !ValidStamp(startedAt) || identity.Err? || occurredOn != startedAt.date then None
    else Some(Address(kind, occurredOn, name, startedAt, identity.value))
  }

  predicate WellMade(u: Unicode, a: Address) {
    NewAddress(u, a.kind, a.occurredOn, a.name, a.startedAt) == Some(a)
  }

  /** Addresses are compared by kind, date and identity name. */
  predicate SameAddress(a: Address, b: Address) {
    a.kind == b.kind && a.occurredOn == b.occurredOn && a.identityName == b.identityName
  }

  function FromIdentity(u: Unicode, kind: Kind, occurredOn: Date, identity: string): Option<Address> {
    var parts := SplitIdentity(u, identity);
    if parts.None? then None else NewAddress(u, kind, occurredOn, parts.value.0, parts.value.1)
  }

  /** From its identity an address comes back, with its name in canonical form. */
  lemma AddressFromItsIdentity(u: Unicode, a: Address)
    requires Lawful(u) && WellMade(u, a)
    ensures FromIdentity(u, a.kind, a.occurredOn, a.identityName) == Some(a.(name := u.fold(a.name)))
  {
    SplitInvertsBuild(u, a.name, a.startedAt);
    CanonicalIsStable(u, a.name);
    IdentityNeverTooLong(u, u.fold(a.name), a.startedAt);
  }
}
