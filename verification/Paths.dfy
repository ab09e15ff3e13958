/**
 The path language: canonical printers, the two parsers that read a path back, and the two validators.

 A path is text throughout, exactly as the program stores it, so the theorems below are about
 characters: printing is injective, the profiles never overlap, both parsers invert the printers,
 and the allocation validator accepts a plus-free text exactly when a printer produced it.
 */
module Paths {
  import opened Limits
  import opened Wrappers
  import opened Decimal

  const PURPOSE: nat := 44
  const COIN_EVM: nat := 60
  const COIN_SOLANA: nat := 501
  const PETAL_BRANCH: nat := 18735

  datatype Profile = Evm | Solana

  // ---------------------------------------------------------------- text helpers

  function StripPrefix(s: string, prefix: string): Option<string> {
    if prefix <= s then Some(s[|prefix|..]) else None
  }

  predicate EndsWith(s: string, suffix: string) {
    |suffix| <= |s| && s[|s| - |suffix|..] == suffix
  }

  function StripSuffix(s: string, suffix: string): Option<string> {
    if EndsWith(s, suffix) then Some(s[..|s| - |suffix|]) else None
  }

  /** `str::split_once`: cut at the first occurrence of the pattern. */
  function SplitOnce(s: string, pattern: string): Option<(string, string)> {
    if pattern <= s then Some(("", s[|pattern|..]))
    else if s == "" then None
    else match SplitOnce(s[1..], pattern)
      case None => None
      case Some(cut) => Some(([s[0]] + cut.0, cut.1))
  }

  /** `str::split('/')`. */
  function Split(s: string): (parts: seq<string>)
    ensures |parts| >= 1
  {
    if s == "" then [""]
    else
      var rest := Split(s[1..]);
      if s[0] == '/' then [""] + rest else [[s[0]] + rest[0]] + rest[1..]
  }

  function Join(parts: seq<string>): string
    requires |parts| >= 1
  {
    if |parts| == 1 then parts[0] else parts[0] + "/" + Join(parts[1..])
  }

  lemma {:induction false} SplitSegment(x: string)
    requires '/' !in x
    ensures Split(x) == [x]
  {
    if x != "" {
      SplitSegment(x[1..]);
      assert [x[0]] + x[1..] == x;
    }
  }

  lemma {:induction false} SplitAtSlash(x: string, y: string)
    requires '/' !in x
    ensures Split(x + "/" + y) == [x] + Split(y)
  {
    if x == "" {
      assert (x + "/" + y)[1..] == y;
    } else {
      SplitAtSlash(x[1..], y);
      assert (x + "/" + y)[1..] == x[1..] + "/" + y;
      assert [x[0]] + x[1..] == x;
    }
  }

  lemma {:induction false} JoinOfSplit(s: string)
    ensures Join(Split(s)) == s
  {
    if s != "" {
      JoinOfSplit(s[1..]);
      var rest := Split(s[1..]);
      if s[0] == '/' {
        assert Split(s)[1..] == rest;
        assert s == "" + "/" + s[1..];
      } else {
        assert Split(s)[1..] == rest[1..];
        assert s == [s[0]] + s[1..];
      }
    }
  }

  /** Splitting invents no characters. */
  lemma {:induction false} SplitKeepsOut(s: string, c: char)
    requires c !in s
    ensures forall k :: 0 <= k < |Split(s)| ==> c !in Split(s)[k]
  {
    if s != "" {
      SplitKeepsOut(s[1..], c);
    }
  }

  lemma {:induction false} SplitOnceAt(x: string, pattern: string, y: string)
    requires pattern != "" && pattern[0] !in x
    ensures SplitOnce(x + pattern + y, pattern) == Some((x, y))
  {
    var s := x + pattern + y;
    if x == "" {
      assert s == pattern + y;
    } else {
      SplitOnceAt(x[1..], pattern, y);
      assert s[0] == x[0];
      assert s[1..] == x[1..] + pattern + y;
      assert [x[0]] + x[1..] == x;
    }
  }

  /** A pattern is not found where its first character is followed by too little text. */
  lemma {:induction false} SplitOnceMissing(x: string, pattern: string, y: string)
    requires pattern != "" && pattern[0] !in x && |y| < |pattern|
    ensures SplitOnce(x + y, pattern).None?
    decreases |x| + |y|
  {
    if x == "" {
      assert x + y == y;
      if y != "" {
        SplitOnceMissing("", pattern, y[1..]);
        assert "" + y[1..] == y[1..];
      }
    } else {
      SplitOnceMissing(x[1..], pattern, y);
      assert (x + y)[0] == x[0];
      assert (x + y)[1..] == x[1..] + y;
    }
  }

  // ---------------------------------------------------------------- printers

  function EvmPath(account: nat, index: nat): string {
    "m/44'/60'/" + Dec(account) + "'/0/" + Dec(index)
  }

  function SolanaPath(account: nat): string {
    "m/44'/501'/" + Dec(account) + "'/0'"
  }

  function PetalPath(account: nat, index: nat): string {
    SolanaPath(account) + "/18735'/" + Dec(index) + "'"
  }

  /** The derivers print their own constants instead of literal text. */
  function DerivedEvmPath(account: nat, index: nat): string {
    "m/" + Dec(PURPOSE) + "'/" + Dec(COIN_EVM) + "'/" + Dec(account) + "'/0/" + Dec(index)
  }

  function DerivedSolanaPath(account: nat): string {
    "m/" + Dec(PURPOSE) + "'/" + Dec(COIN_SOLANA) + "'/" + Dec(account) + "'/0'"
  }

  function DerivedPetalPath(account: nat, index: nat): string {
    "m/" + Dec(PURPOSE) + "'/" + Dec(COIN_SOLANA) + "'/" + Dec(account) + "'/0'/" + Dec(PETAL_BRANCH) + "'/" + Dec(index) + "'"
  }

  // ---------------------------------------------------------------- parsers

  function ParseBelow(s: string, limit: nat): Option<nat> {
    match ParseU32(s)
    case Some(v) => if v < limit then Some(v) else None
    case None => None
  }

  function ParseMarked(s: string, limit: nat): Option<nat> {
    match StripSuffix(s, "'")
    case Some(v) => ParseBelow(v, limit)
    case None => None
  }

  function Both(a: Option<nat>, b: Option<nat>): Option<(nat, nat)> {
    if a.Some? && b.Some? then Some((a.value, b.value)) else None
  }

  /** `parse_bip39_path` of the local backend. */
  function ParseBip39Path(profile: Profile, path: string): Option<(nat, nat)> {
    match profile
    case Evm => (
      match StripPrefix(path, "m/44'/60'/")
      case None => None
      case Some(tail) =>
        match SplitOnce(tail, "/0/")
        case None => None
        case Some(cut) => Both(ParseMarked(cut.0, U32_LIMIT), ParseU32(cut.1)))
    case Solana => (
      match StripPrefix(path, "m/44'/501'/")
      case None => None
      case Some(tail) =>
        match SplitOnce(tail, "'/0'/18735'/")
        case Some(cut) => Both(ParseBelow(cut.0, HARDENED_OFFSET), ParseMarked(cut.1, HARDENED_OFFSET))
        case None =>
          match StripSuffix(tail, "/0'")
          case None => None
          case Some(account) => Both(ParseMarked(account, HARDENED_OFFSET), Some(0)))
  }

  /** `account_index` of the signing edge; it has no Petal branch and no 2^31 bound. */
  function AccountIndex(profile: Profile, path: string): Option<(nat, nat)> {
    match profile
    case Evm => ParseBip39Path(Evm, path)
    case Solana => (
      match StripPrefix(path, "m/44'/501'/")
      case None => None
      case Some(tail) =>
        match StripSuffix(tail, "/0'")
        case None => None
        case Some(account) => Both(ParseMarked(account, U32_LIMIT), Some(0)))
  }

  // ---------------------------------------------------------------- validators

  function ParseChild(segment: string, hardened: bool): Option<nat> {
    var marked := EndsWith(segment, "'");
    var number := if marked then segment[..|segment| - 1] else segment;
    if marked != hardened || number == "" || (|number| > 1 && number[0] == '0') then None
    else ParseBelow(number, HARDENED_OFFSET)
  }

  predicate RequireChild(segment: string, hardened: bool, expected: Option<nat>) {
    var value := ParseChild(segment, hardened);
    value.Some? && (expected.Some? ==> value == expected)
  }

  /** One level of a profile's canonical template. */
  datatype Slot = Slot(hardened: bool, expected: Option<nat>) {
    function Mark(): string { if hardened then "'" else "" }

    predicate Fits(n: nat) { n < HARDENED_OFFSET && (expected.Some? ==> n == expected.value) }
  }

  function Template(profile: Profile): seq<Slot> {
    match profile
    case Evm =>
      [Slot(true, Some(PURPOSE)), Slot(true, Some(COIN_EVM)), Slot(true, None), Slot(false, Some(0)), Slot(false, None)]
    case Solana =>
      [Slot(true, Some(PURPOSE)), Slot(true, Some(COIN_SOLANA)), Slot(true, None), Slot(true, Some(0))]
  }

  /** `validate_allocated_path`, on the segments between the slashes. */
  predicate AllocatedParts(profile: Profile, parts: seq<string>) {
    var slots := Template(profile);
    && |parts| == |slots| + 1 && parts[0] == "m"
    && forall k :: 0 <= k < |slots| ==> RequireChild(parts[k + 1], slots[k].hardened, slots[k].expected)
  }

  predicate ValidAllocatedPath(profile: Profile, path: string) { AllocatedParts(profile, Split(path)) }

  predicate ValidBip32Child(child: string) {
    var index := if EndsWith(child, "'") then child[..|child| - 1] else child;
    && index != ""
    && !(|index| > 1 && index[0] == '0')
    && ParseBelow(index, HARDENED_OFFSET).Some?
  }

  /** `validate_bip32_path`, the looser check every key reference passes. */
  predicate Bip32Parts(parts: seq<string>) {
    && 2 <= |parts| <= 11 && parts[0] == "m"
    && forall k :: 1 <= k < |parts| ==> ValidBip32Child(parts[k])
  }

  predicate ValidBip32Path(path: string) { Bip32Parts(Split(path)) }

  // ---------------------------------------------------------------- theorems

  lemma DecSegment(n: nat)
    ensures Canonical(Dec(n))
    ensures '/' !in Dec(n) && '\'' !in Dec(n) && '+' !in Dec(n)
  {
    DecIsCanonical(n);
  }

  lemma MarkedSegment(n: nat, limit: nat)
    requires n < limit <= U32_LIMIT
    ensures StripSuffix(Dec(n) + "'", "'") == Some(Dec(n))
    ensures ParseMarked(Dec(n) + "'", limit) == Some(n)
    ensures '/' !in Dec(n) + "'"
  {
    DecSegment(n);
    ParseOfDec(n);
    assert (Dec(n) + "'")[..|Dec(n)|] == Dec(n);
  }

  /** The registry and the derivers print the same text. */
  lemma PrintersAgree(account: nat, index: nat)
    ensures DerivedEvmPath(account, index) == EvmPath(account, index)
    ensures DerivedSolanaPath(account) == SolanaPath(account)
    ensures DerivedPetalPath(account, index) == PetalPath(account, index)
  {
    Constants();
    var a, i := Dec(account), Dec(index);
    assert "m/" + "44" + "'/" + "60" + "'/" == "m/44'/60'/";
    assert "m/" + "44" + "'/" + "501" + "'/" == "m/44'/501'/";
    assert "m/44'/501'/" + a + "'/0'/" + "18735" + "'/" + i + "'" == "m/44'/501'/" + a + "'/0'" + "/18735'/" + i + "'";
  }

  lemma EvmPathParses(account: nat, index: nat)
    requires account < U32_LIMIT && index < U32_LIMIT
    ensures ParseBip39Path(Evm, EvmPath(account, index)) == Some((account, index))
    ensures AccountIndex(Evm, EvmPath(account, index)) == Some((account, index))
  {
    var tail := Dec(account) + "'" + "/0/" + Dec(index);
    assert EvmPath(account, index) == "m/44'/60'/" + tail;
    MarkedSegment(account, U32_LIMIT);
    SplitOnceAt(Dec(account) + "'", "/0/", Dec(index));
    ParseOfDec(index);
  }

  lemma SolanaPathParses(account: nat)
    requires account < HARDENED_OFFSET
    ensures ParseBip39Path(Solana, SolanaPath(account)) == Some((account, 0))
    ensures AccountIndex(Solana, SolanaPath(account)) == Some((account, 0))
  {
    var marked := Dec(account) + "'";
    var tail := marked + "/0'";
    assert SolanaPath(account) == "m/44'/501'/" + tail;
    assert StripPrefix(SolanaPath(account), "m/44'/501'/") == Some(tail);
    DecSegment(account);
    assert tail == Dec(account) + "'/0'";
    SplitOnceMissing(Dec(account), "'/0'/18735'/", "'/0'");
    assert tail[..|tail| - 3] == marked && tail[|tail| - 3..] == "/0'";
    assert StripSuffix(tail, "/0'") == Some(marked);
    MarkedSegment(account, HARDENED_OFFSET);
    MarkedSegment(account, U32_LIMIT);
  }

  lemma PetalPathParses(account: nat, index: nat)
    requires account < HARDENED_OFFSET && index < HARDENED_OFFSET
    ensures ParseBip39Path(Solana, PetalPath(account, index)) == Some((account, index))
  {
    var tail := Dec(account) + "'/0'/18735'/" + (Dec(index) + "'");
    assert PetalPath(account, index) == "m/44'/501'/" + tail;
    DecSegment(account);
    SplitOnceAt(Dec(account), "'/0'/18735'/", Dec(index) + "'");
    ParseOfDec(account);
    MarkedSegment(index, HARDENED_OFFSET);
  }

  /** No two numbers share an EVM path, whatever their size. */
  lemma EvmPathInjective(a: nat, i: nat, a': nat, i': nat)
    requires EvmPath(a, i) == EvmPath(a', i')
    ensures a == a' && i == i'
  {
    DecSegment(a);
    DecSegment(a');
    var prefix := "m/44'/60'/";
    var tail, tail' := Dec(a) + "'/0/" + Dec(i), Dec(a') + "'/0/" + Dec(i');
    assert EvmPath(a, i) == prefix + tail && EvmPath(a', i') == prefix + tail';
    assert (prefix + tail)[|prefix|..] == tail;
    assert (prefix + tail')[|prefix|..] == tail';
    SplitOnceAt(Dec(a), "'/0/", Dec(i));
    SplitOnceAt(Dec(a'), "'/0/", Dec(i'));
    DecInjective(a, a');
    DecInjective(i, i');
  }

  lemma SolanaPathInjective(a: nat, a': nat)
    requires SolanaPath(a) == SolanaPath(a')
    ensures a == a'
  {
    DecSegment(a);
    DecSegment(a');
    var prefix := "m/44'/501'/";
    var tail, tail' := Dec(a) + "'/0'" + "", Dec(a') + "'/0'" + "";
    assert SolanaPath(a) == prefix + tail && SolanaPath(a') == prefix + tail';
    assert (prefix + tail)[|prefix|..] == tail;
    assert (prefix + tail')[|prefix|..] == tail';
    SplitOnceAt(Dec(a), "'/0'", "");
    SplitOnceAt(Dec(a'), "'/0'", "");
    DecInjective(a, a');
  }

  lemma PetalPathInjective(a: nat, i: nat, a': nat, i': nat)
    requires PetalPath(a, i) == PetalPath(a', i')
    ensures a == a' && i == i'
  {
    PetalTail(a, i);
    PetalTail(a', i');
    assert (Dec(i) + "'")[..|Dec(i)|] == Dec(i);
    assert (Dec(i') + "'")[..|Dec(i')|] == Dec(i');
    DecInjective(a, a');
    DecInjective(i, i');
  }

  lemma PetalTail(a: nat, i: nat)
    ensures |PetalPath(a, i)| >= 11
    ensures SplitOnce(PetalPath(a, i)[11..], "'/0'/18735'/") == Some((Dec(a), Dec(i) + "'"))
  {
    DecSegment(a);
    var tail := Dec(a) + "'/0'/18735'/" + (Dec(i) + "'");
    assert PetalPath(a, i) == "m/44'/501'/" + tail;
    assert PetalPath(a, i)[11..] == tail;
    SplitOnceAt(Dec(a), "'/0'/18735'/", Dec(i) + "'");
  }

  /** The three path families never share a text. */
  lemma FamiliesDisjoint(a: nat, i: nat, b: nat, c: nat, j: nat)
    ensures EvmPath(a, i) != SolanaPath(b)
    ensures EvmPath(a, i) != PetalPath(c, j)
    ensures SolanaPath(b) != PetalPath(c, j)
  {
    assert EvmPath(a, i)[6] == '6';
    assert SolanaPath(b)[6] == '5';
    assert PetalPath(c, j)[6] == '5';
    DecSegment(b);
    DecSegment(c);
    var prefix := "m/44'/501'/";
    var tail, tail' := Dec(b) + "'/0'", Dec(c) + "'/0'/18735'/" + (Dec(j) + "'");
    assert SolanaPath(b) == prefix + tail && PetalPath(c, j) == prefix + tail';
    assert (prefix + tail)[|prefix|..] == tail;
    assert (prefix + tail')[|prefix|..] == tail';
    SplitOnceMissing(Dec(b), "'/0'/18735'/", "'/0'");
    SplitOnceAt(Dec(c), "'/0'/18735'/", Dec(j) + "'");
  }

  lemma {:induction false} SplitOfJoin(parts: seq<string>)
    requires |parts| >= 1 && forall k :: 0 <= k < |parts| ==> '/' !in parts[k]
    ensures Split(Join(parts)) == parts
  {
    if |parts| == 1 {
      SplitSegment(parts[0]);
    } else {
      SplitOfJoin(parts[1..]);
      SplitAtSlash(parts[0], Join(parts[1..]));
    }
  }

  /** The segments a printer emits for one number per template level. */
  function Printed(profile: Profile, numbers: seq<nat>): (parts: seq<string>)
    requires |numbers| == |Template(profile)|
  {
    ["m"] + seq(|numbers|, k requires 0 <= k < |numbers| => Dec(numbers[k]) + Template(profile)[k].Mark())
  }

  predicate NumbersFit(profile: Profile, numbers: seq<nat>) {
    && |numbers| == |Template(profile)|
    && forall k :: 0 <= k < |numbers| ==> Template(profile)[k].Fits(numbers[k])
  }

  function EvmNumbers(account: nat, index: nat): seq<nat> { [PURPOSE, COIN_EVM, account, 0, index] }

  function SolanaNumbers(account: nat): seq<nat> { [PURPOSE, COIN_SOLANA, account, 0] }

  lemma SplitOfPrinted(profile: Profile, numbers: seq<nat>)
    requires |numbers| == |Template(profile)|
    ensures Split(Join(Printed(profile, numbers))) == Printed(profile, numbers)
  {
    var p := Printed(profile, numbers);
    forall k | 0 <= k < |p| ensures '/' !in p[k] {
      if k > 0 { DecSegment(numbers[k - 1]); }
    }
    SplitOfJoin(p);
  }

  lemma JoinStep(head: string, tail: seq<string>)
    requires |tail| >= 1
    ensures Join([head] + tail) == head + "/" + Join(tail)
  {
  }

  lemma JoinFive(a: string, b: string, c: string, d: string, e: string)
    ensures Join([a, b, c, d, e]) == a + "/" + (b + "/" + (c + "/" + (d + "/" + e)))
  {
    JoinStep(d, [e]);
    assert [d] + [e] == [d, e];
    JoinStep(c, [d, e]);
    assert [c] + [d, e] == [c, d, e];
    JoinStep(b, [c, d, e]);
    assert [b] + [c, d, e] == [b, c, d, e];
    JoinStep(a, [b, c, d, e]);
    assert [a] + [b, c, d, e] == [a, b, c, d, e];
  }

  lemma JoinSix(a: string, b: string, c: string, d: string, e: string, f: string)
    ensures Join([a, b, c, d, e, f]) == a + "/" + (b + "/" + (c + "/" + (d + "/" + (e + "/" + f))))
  {
    JoinFive(b, c, d, e, f);
    JoinStep(a, [b, c, d, e, f]);
    assert [a] + [b, c, d, e, f] == [a, b, c, d, e, f];
  }

  lemma EvmText(a: string, i: string)
    ensures "m" + "/" + ("44'" + "/" + ("60'" + "/" + (a + "'" + "/" + ("0" + "/" + i))))
         == "m/44'/60'/" + a + "'/0/" + i
  {
  }

  lemma SolanaText(a: string)
    ensures "m" + "/" + ("44'" + "/" + ("501'" + "/" + (a + "'" + "/" + "0'"))) == "m/44'/501'/" + a + "'/0'"
  {
  }

  lemma Constants()
    ensures Dec(PURPOSE) == "44" && Dec(COIN_EVM) == "60" && Dec(COIN_SOLANA) == "501" && Dec(PETAL_BRANCH) == "18735"
    ensures Dec(0) == "0"
  {
  }

  lemma EvmPathPrinted(account: nat, index: nat)
    ensures Join(Printed(Evm, EvmNumbers(account, index))) == EvmPath(account, index)
  {
    var a, i := Dec(account), Dec(index);
    Constants();
    assert "44" + "'" == "44'" && "60" + "'" == "60'" && "0" + "" == "0" && i + "" == i;
    assert Printed(Evm, EvmNumbers(account, index)) == ["m", "44'", "60'", a + "'", "0", i];
    JoinSix("m", "44'", "60'", a + "'", "0", i);
    EvmText(a, i);
  }

  lemma SolanaPathPrinted(account: nat)
    ensures Join(Printed(Solana, SolanaNumbers(account))) == SolanaPath(account)
  {
    var a := Dec(account);
    Constants();
    assert "44" + "'" == "44'" && "501" + "'" == "501'" && "0" + "'" == "0'";
    assert Printed(Solana, SolanaNumbers(account)) == ["m", "44'", "501'", a + "'", "0'"];
    JoinFive("m", "44'", "501'", a + "'", "0'");
    SolanaText(a);
  }

  /** A printed number passes its slot exactly when it fits the slot. */
  lemma ChildOfDec(n: nat, slot: Slot)
    ensures RequireChild(Dec(n) + slot.Mark(), slot.hardened, slot.expected) <==> slot.Fits(n)
  {
    DecSegment(n);
    DecIsCanonical(n);
    var segment := Dec(n) + slot.Mark();
    if slot.hardened {
      assert segment[..|segment| - 1] == Dec(n);
      assert EndsWith(segment, "'");
    } else {
      assert segment == Dec(n);
      assert Dec(n)[|Dec(n)| - 1] != '\'';
      assert !EndsWith(segment, "'");
    }
  }

  /** A plus-free segment that passes a slot is a printed number that fits it. */
  lemma DecOfChild(segment: string, slot: Slot)
    requires '+' !in segment && RequireChild(segment, slot.hardened, slot.expected)
    ensures var n := ParseChild(segment, slot.hardened).value;
            slot.Fits(n) && segment == Dec(n) + slot.Mark()
  {
    var number := if slot.hardened then segment[..|segment| - 1] else segment;
    DecOfParse(number);
    if slot.hardened {
      assert segment == number + "'";
    }
  }

  lemma PrintedIsAllocated(profile: Profile, numbers: seq<nat>)
    requires |numbers| == |Template(profile)|
    ensures ValidAllocatedPath(profile, Join(Printed(profile, numbers))) <==> NumbersFit(profile, numbers)
  {
    SplitOfPrinted(profile, numbers);
    var slots := Template(profile);
    forall k | 0 <= k < |slots|
      ensures RequireChild(Printed(profile, numbers)[k + 1], slots[k].hardened, slots[k].expected) <==> slots[k].Fits(numbers[k])
    {
      ChildOfDec(numbers[k], slots[k]);
    }
  }

  /** A plus-free text that validates is printed from numbers that fit the template. */
  lemma AllocatedIsPrinted(profile: Profile, path: string) returns (numbers: seq<nat>)
    requires '+' !in path && ValidAllocatedPath(profile, path)
    ensures NumbersFit(profile, numbers) && path == Join(Printed(profile, numbers))
  {
    var parts, slots := Split(path), Template(profile);
    SplitKeepsOut(path, '+');
    numbers := seq(|slots|, k requires 0 <= k < |slots| => ParseChild(parts[k + 1], slots[k].hardened).value);
    forall k | 0 <= k < |slots|
      ensures slots[k].Fits(numbers[k]) && parts[k + 1] == Dec(numbers[k]) + slots[k].Mark()
    {
      DecOfChild(parts[k + 1], slots[k]);
    }
    PartsPrinted(profile, parts, numbers);
    JoinOfSplit(path);
  }

  lemma PartsPrinted(profile: Profile, parts: seq<string>, numbers: seq<nat>)
    requires |numbers| == |Template(profile)| && |parts| == |numbers| + 1 && parts[0] == "m"
    requires forall k :: 0 <= k < |numbers| ==> parts[k + 1] == Dec(numbers[k]) + Template(profile)[k].Mark()
    ensures parts == Printed(profile, numbers)
  {
  }

  lemma EvmNumbersFit(n: seq<nat>)
    ensures NumbersFit(Evm, n)
       <==> |n| == 5 && n == EvmNumbers(n[2], n[4]) && n[2] < HARDENED_OFFSET && n[4] < HARDENED_OFFSET
  {
  }

  lemma SolanaNumbersFit(n: seq<nat>)
    ensures NumbersFit(Solana, n) <==> |n| == 4 && n == SolanaNumbers(n[2]) && n[2] < HARDENED_OFFSET
  {
  }

  lemma PrintedHasNoPlus(a: nat, i: nat)
    ensures '+' !in EvmPath(a, i) && '+' !in SolanaPath(a)
  {
    DecSegment(a);
    DecSegment(i);
  }

  /**
   A text is an EVM account path printed from two numbers below 2^31 if and only if it is accepted
   and holds no plus sign. (Rust's integer parser also takes a leading plus.)
   */
  lemma EvmValidatorExact(path: string)
    ensures ValidAllocatedPath(Evm, path) && '+' !in path
       <==> exists a: nat, i: nat :: a < HARDENED_OFFSET && i < HARDENED_OFFSET && path == EvmPath(a, i)
  {
    if ValidAllocatedPath(Evm, path) && '+' !in path {
      var n := AllocatedIsPrinted(Evm, path);
      EvmNumbersFit(n);
      EvmPathPrinted(n[2], n[4]);
    }
    if a: nat, i: nat :| a < HARDENED_OFFSET && i < HARDENED_OFFSET && path == EvmPath(a, i) {
      EvmPathValidExactly(a, i);
      PrintedHasNoPlus(a, i);
    }
  }

  lemma SolanaValidatorExact(path: string)
    ensures ValidAllocatedPath(Solana, path) && '+' !in path <==> exists a: nat :: a < HARDENED_OFFSET && path == SolanaPath(a)
  {
    if ValidAllocatedPath(Solana, path) && '+' !in path {
      var n := AllocatedIsPrinted(Solana, path);
      SolanaNumbersFit(n);
      SolanaPathPrinted(n[2]);
    }
    if a: nat :| a < HARDENED_OFFSET && path == SolanaPath(a) {
      SolanaPathValidExactly(a);
      PrintedHasNoPlus(a, 0);
    }
  }

  /** An EVM path printed from any numbers validates exactly when both lie below 2^31. */
  lemma EvmPathValidExactly(a: nat, i: nat)
    ensures ValidAllocatedPath(Evm, EvmPath(a, i)) <==> a < HARDENED_OFFSET && i < HARDENED_OFFSET
  {
    EvmPathPrinted(a, i);
    PrintedIsAllocated(Evm, EvmNumbers(a, i));
    EvmNumbersFit(EvmNumbers(a, i));
  }

  lemma SolanaPathValidExactly(a: nat)
    ensures ValidAllocatedPath(Solana, SolanaPath(a)) <==> a < HARDENED_OFFSET
  {
    SolanaPathPrinted(a);
    PrintedIsAllocated(Solana, SolanaNumbers(a));
    SolanaNumbersFit(SolanaNumbers(a));
  }

  /** Whatever a derivation profile accepts, the looser key-reference check accepts too. */
  lemma AllocatedIsBip32(profile: Profile, path: string)
    requires ValidAllocatedPath(profile, path)
    ensures ValidBip32Path(path)
  {
    var parts, slots := Split(path), Template(profile);
    forall k | 1 <= k < |parts| ensures ValidBip32Child(parts[k]) {
      assert RequireChild(parts[k - 1 + 1], slots[k - 1].hardened, slots[k - 1].expected);
    }
  }

  lemma SplitStep(c: char, t: string)
    ensures Split([c] + t) == (if c == '/' then [""] + Split(t) else [[c] + Split(t)[0]] + Split(t)[1..])
  {
  }

  lemma {:induction false} SplitConcat(x: string, y: string)
    ensures Split(x + "/" + y) == Split(x) + Split(y)
  {
    if x == "" {
      assert x + "/" + y == ['/'] + y;
      SplitStep('/', y);
    } else {
      var c, t := x[0], x[1..];
      SplitConcat(t, y);
      assert x == [c] + t;
      assert x + "/" + y == [c] + (t + "/" + y);
      SplitStep(c, t);
      SplitStep(c, t + "/" + y);
      SplitHeads(c, Split(t), Split(y));
    }
  }

  lemma SplitHeads(c: char, rest: seq<string>, more: seq<string>)
    requires |rest| >= 1
    ensures [""] + (rest + more) == ([""] + rest) + more
    ensures [[c] + (rest + more)[0]] + (rest + more)[1..] == ([[c] + rest[0]] + rest[1..]) + more
  {
  }

  lemma SplitPetalPath(account: nat, index: nat)
    ensures Split(PetalPath(account, index)) == Split(SolanaPath(account)) + [Dec(PETAL_BRANCH) + "'", Dec(index) + "'"]
  {
    var branch, leaf := Dec(PETAL_BRANCH) + "'", Dec(index) + "'";
    assert branch == "18735'" by {
      Constants();
      assert "18735" + "'" == "18735'";
    }
    assert PetalPath(account, index) == SolanaPath(account) + "/" + (branch + "/" + leaf);
    SplitConcat(SolanaPath(account), branch + "/" + leaf);
    DecSegment(index);
    SplitAtSlash(branch, leaf);
    SplitSegment(leaf);
  }

  /** A Petal child is no account path, yet it passes the key-reference check. */
  lemma PetalPathValid(account: nat, index: nat)
    requires account < HARDENED_OFFSET && index < HARDENED_OFFSET
    ensures ValidBip32Path(PetalPath(account, index)) && !ValidAllocatedPath(Solana, PetalPath(account, index))
  {
    SplitPetalPath(account, index);
    SolanaPathValidExactly(account);
    AllocatedIsBip32(Solana, SolanaPath(account));
    var any := Slot(true, None);
    assert ValidBip32Child(Dec(PETAL_BRANCH) + any.Mark()) by { ChildOfDec(PETAL_BRANCH, any); }
    assert ValidBip32Child(Dec(index) + any.Mark()) by { ChildOfDec(index, any); }
  }

  /** The hypothesis on plus signs is needed: this text validates, and no printer produces it. */
  lemma PlusSignAccepted()
    ensures ValidAllocatedPath(Solana, Join(Printed(Solana, SolanaNumbers(0))[3 := "+0'"]))
    ensures forall a: nat :: SolanaPath(a) != Join(Printed(Solana, SolanaNumbers(0))[3 := "+0'"])
  {
    var q := Printed(Solana, SolanaNumbers(0));
    var p := q[3 := "+0'"];
    assert Split(Join(p)) == p by {
      SplitOfPrinted(Solana, SolanaNumbers(0));
      assert forall k :: 0 <= k < |q| ==> '/' !in q[k] by { SplitHasNoSlash(Join(q)); }
      SplitOfJoin(p);
    }
    assert AllocatedParts(Solana, p) by {
      PlusZero();
      SolanaPathValidExactly(0);
      SplitOfPrinted(Solana, SolanaNumbers(0));
      SolanaPathPrinted(0);
    }
    forall a: nat ensures SolanaPath(a) != Join(p) {
      var r := Printed(Solana, SolanaNumbers(a));
      SolanaPathPrinted(a);
      SplitOfPrinted(Solana, SolanaNumbers(a));
      DecSegment(a);
      assert r[3] == Dec(a) + "'" && p[3][0] == '+';
    }
  }

  lemma {:induction false} SplitHasNoSlash(s: string)
    ensures forall k :: 0 <= k < |Split(s)| ==> '/' !in Split(s)[k]
  {
    if s != "" {
      SplitHasNoSlash(s[1..]);
    }
  }

  lemma PlusZero()
    ensures ParseChild("+0'", true) == Some(0)
  {
    ParseOfDec(0);
    assert "+0"[1..] == Dec(0);
    assert "+0'"[..2] == "+0";
  }
}
