/**
 The text forms of subnet identifiers, `/r123/f01/f02`, and of addresses within a subnet,
 `/r123/f01:f0101`: printing, and parsing by splitting at separators.

 How a single address is printed and parsed is the parameter `t`.
 */
module SubnetText {
  import opened Wrappers
  import opened SubnetId
  import Sorting

  const U64_MAX: nat := 0xFFFF_FFFF_FFFF_FFFF

  datatype AddressText = AddressText(show: Address -> string, parse: string -> Option<Address>)

  /** Address texts parse back and contain neither separator. */
  ghost predicate Faithful(t: AddressText) {
    forall a: Address :: t.parse(t.show(a)) == Some(a) && '/' !in t.show(a) && ':' !in t.show(a)
  }

  datatype IpcAddress = IpcAddress(subnet: SubnetId, raw: Address)

  datatype TextError = WrongPrefix | BadRoot | BadChild | BadIpcAddress | BadAddress

  // ----- Numbers -------------------------------------------------------------------------------

  function DigitChar(d: nat): char
    requires d < 10
  {
    '0' + d as char
  }

  predicate IsDigit(c: char) { '0' <= c <= '9' }

  function DigitValue(c: char): nat
    requires IsDigit(c)
  {
    (c - '0') as nat
  }

  function ShowNat(n: nat): (s: string)
    ensures s != [] && forall c | c in s :: IsDigit(c)
  {
    if n < 10 then [DigitChar(n)] else ShowNat(n / 10) + [DigitChar(n % 10)]
  }

  predicate AllDigits(s: string) { forall i | 0 <= i < |s| :: IsDigit(s[i]) }

  function DigitsValue(s: string): nat
    requires AllDigits(s)
  {
    if s == [] then 0 else 10 * DigitsValue(s[..|s| - 1]) + DigitValue(s[|s| - 1])
  }

  /** Parsing as the library does: an optional plus sign, then at least one digit, within 64 bits. */
  function ParseU64(s: string): Option<nat> {
    var digits := if s != [] && s[0] == '+' then s[1..] else s;
    if digits == [] || !AllDigits(digits) || DigitsValue(digits) > U64_MAX then None
    else Some(DigitsValue(digits))
  }

  lemma {:induction false} DigitsOfShown(n: nat)
    ensures AllDigits(ShowNat(n)) && DigitsValue(ShowNat(n)) == n
  {
    var s := ShowNat(n);
    forall i | 0 <= i < |s| ensures IsDigit(s[i]) { assert s[i] in s; }
    if n < 10 {
      assert s[..0] == [];
    } else {
      DigitsOfShown(n / 10);
      assert s[..|s| - 1] == ShowNat(n / 10);
    }
  }

  lemma ParseShown(n: nat)
    requires n <= U64_MAX
    ensures ParseU64(ShowNat(n)) == Some(n)
  {
    DigitsOfShown(n);
    assert ShowNat(n)[0] in ShowNat(n);
  }

  function Zeros(n: nat): string { seq(n, _ => '0') }

  /** A way to write a number: perhaps a plus sign, any zeros, and then the number as it prints. */
  ghost predicate Writes(s: string, n: nat) {
    exists plus, z :: (plus == "" || plus == "+") && s == plus + Zeros(z) + ShowNat(n)
  }

  /** No sign and no leading zero. */
  predicate CanonicalDecimal(s: string) {
    s == "0" || (s != [] && s[0] != '0' && s[0] != '+')
  }

  lemma {:induction false} PositiveDigits(s: string)
    requires AllDigits(s) && s != [] && s[0] != '0'
    ensures DigitsValue(s) > 0 && ShowNat(DigitsValue(s)) == s
  {
    var init, last := s[..|s| - 1], DigitValue(s[|s| - 1]);
    assert init + [s[|s| - 1]] == s;
    assert DigitChar(last) == s[|s| - 1];
    if init != [] {
      PositiveDigits(init);
      assert (10 * DigitsValue(init) + last) / 10 == DigitsValue(init);
    }
  }

  lemma {:induction false} NoLeadingZero(n: nat)
    ensures CanonicalDecimal(ShowNat(n)) && (n > 0 ==> ShowNat(n)[0] != '0')
  {
    if n >= 10 {
      NoLeadingZero(n / 10);
    }
  }

  /** A number that parses prints as the same text exactly when that text is canonical. */
  lemma PrintAfterParseNat(s: string)
    requires ParseU64(s).Some?
    ensures ShowNat(ParseU64(s).value) == s <==> CanonicalDecimal(s)
  {
    NoLeadingZero(ParseU64(s).value);
    if s == "0" {
      assert s[..0] == [];
      assert DigitsValue(s) == 0;
    } else if CanonicalDecimal(s) {
      PositiveDigits(s);
    }
  }

  lemma {:induction false} LeadingZero(digits: string)
    requires AllDigits(digits)
    ensures AllDigits("0" + digits) && DigitsValue("0" + digits) == DigitsValue(digits)
  {
    var s := "0" + digits;
    if digits == [] {
      assert s[..0] == [];
    } else {
      LeadingZero(digits[..|digits| - 1]);
      assert s[..|s| - 1] == "0" + digits[..|digits| - 1];
    }
  }

  lemma ZerosStep(z: nat)
    ensures Zeros(z + 1) == "0" + Zeros(z)
  {
  }

  lemma {:induction false} LeadingZeros(z: nat, n: nat)
    ensures AllDigits(Zeros(z) + ShowNat(n)) && DigitsValue(Zeros(z) + ShowNat(n)) == n
  {
    if z == 0 {
      assert Zeros(0) + ShowNat(n) == ShowNat(n);
      DigitsOfShown(n);
    } else {
      LeadingZeros(z - 1, n);
      LeadingZero(Zeros(z - 1) + ShowNat(n));
      ZerosStep(z - 1);
      Sorting.Regroup("0", Zeros(z - 1), ShowNat(n));
    }
  }

  /** Any digits are zeros before the number they stand for. */
  lemma {:induction false} DigitsAreZerosAndNumber(s: string) returns (z: nat)
    requires AllDigits(s) && s != []
    ensures s == Zeros(z) + ShowNat(DigitsValue(s))
  {
    if s[0] != '0' {
      PositiveDigits(s);
      z := 0;
    } else if |s| == 1 {
      assert s == "0" && s[..0] == [];
      z := 0;
    } else {
      var rest := s[1..];
      assert AllDigits(rest) && s == "0" + rest;
      LeadingZero(rest);
      var z' := DigitsAreZerosAndNumber(rest);
      z := z' + 1;
      ZerosStep(z');
      Sorting.Regroup("0", Zeros(z'), ShowNat(DigitsValue(rest)));
    }
  }

  lemma {:induction false} WrittenParses(plus: string, z: nat, n: nat)
    requires (plus == "" || plus == "+") && n <= U64_MAX
    ensures ParseU64(plus + Zeros(z) + ShowNat(n)) == Some(n)
  {
    var digits := Zeros(z) + ShowNat(n);
    LeadingZeros(z, n);
    Sorting.Regroup(plus, Zeros(z), ShowNat(n));
    var s := plus + digits;
    assert IsDigit(digits[0]);
    if plus == "" {
      assert s == digits;
    } else {
      assert s[0] == '+' && s[1..] == digits;
    }
  }

  lemma {:induction false} ParsedIsWritten(s: string)
    requires ParseU64(s).Some?
    ensures ParseU64(s).value <= U64_MAX && Writes(s, ParseU64(s).value)
  {
    var signed := s[0] == '+';
    var plus, digits := if signed then "+" else "", if signed then s[1..] else s;
    var z := DigitsAreZerosAndNumber(digits);
    Sorting.Regroup(plus, Zeros(z), ShowNat(DigitsValue(digits)));
    assert s == plus + digits;
  }

  /** A text parses to a number exactly if it is a way to write it and the number has 64 bits. */
  lemma {:induction false} ParsesExactly(s: string, n: nat)
    ensures ParseU64(s) == Some(n) <==> n <= U64_MAX && Writes(s, n)
  {
    if ParseU64(s) == Some(n) {
      ParsedIsWritten(s);
    }
    if n <= U64_MAX && Writes(s, n) {
      var plus, z :| (plus == "" || plus == "+") && s == plus + Zeros(z) + ShowNat(n);
      WrittenParses(plus, z, n);
    }
  }

  // ----- Splitting -----------------------------------------------------------------------------

  function Split(s: string, sep: char): (parts: seq<string>)
    ensures parts != []
  {
    if s == [] then [[]]
    else
      var rest := Split(s[1..], sep);
      if s[0] == sep then [[]] + rest else [[s[0]] + rest[0]] + rest[1..]
  }

  function Join(parts: seq<string>, sep: char): string
    requires parts != []
  {
    if |parts| == 1 then parts[0] else parts[0] + [sep] + Join(parts[1..], sep)
  }

  predicate Free(parts: seq<string>, sep: char) { forall i | 0 <= i < |parts| :: sep !in parts[i] }

  lemma {:induction false} SplitFirst(a: string, sep: char, b: string)
    requires sep !in a
    ensures Split(a, sep) == [a]
    ensures Split(a + [sep] + b, sep) == [a] + Split(b, sep)
  {
    var s := a + [sep] + b;
    if a == [] {
      assert s[1..] == b;
    } else {
      SplitFirst(a[1..], sep, b);
      assert s[1..] == a[1..] + [sep] + b;
      assert [a[0]] + a[1..] == a;
    }
  }

  /** Splitting undoes joining, for parts free of the separator. */
  lemma {:induction false} SplitJoin(parts: seq<string>, sep: char)
    requires parts != [] && Free(parts, sep)
    ensures Split(Join(parts, sep), sep) == parts
  {
    if |parts| == 1 {
      SplitFirst(parts[0], sep, []);
    } else {
      SplitJoin(parts[1..], sep);
      SplitFirst(parts[0], sep, Join(parts[1..], sep));
    }
  }

  /** Joining undoes splitting, for any text. */
  lemma {:induction false} JoinSplit(s: string, sep: char)
    ensures Join(Split(s, sep), sep) == s
  {
    if s != [] {
      JoinSplit(s[1..], sep);
      var rest, parts := Split(s[1..], sep), Split(s, sep);
      assert [s[0]] + s[1..] == s;
      if s[0] == sep {
        assert parts[1..] == rest;
      } else if |rest| > 1 {
        assert parts[1..] == rest[1..];
      }
    }
  }

  // ----- Subnet identifiers --------------------------------------------------------------------

  function ShowChildren(t: AddressText, children: seq<Address>): string {
    if children == [] then [] else ['/'] + t.show(children[0]) + ShowChildren(t, children[1..])
  }

  function ShowSubnet(t: AddressText, id: SubnetId): string {
    "/r" + ShowNat(id.root) + ShowChildren(t, id.children)
  }

  function ParseChildren(t: AddressText, parts: seq<string>): Option<seq<Address>> {
    if parts == [] then Some([])
    else match t.parse(parts[0])
      case None => None
      case Some(a) =>
        match ParseChildren(t, parts[1..])
        case None => None
        case Some(rest) => Some([a] + rest)
  }

  predicate HasPrefix(s: string) { |s| >= 2 && s[0] == '/' && s[1] == 'r' }

  /** The parts behind the leading separator; the first is the root's. */
  function Segments(s: string): (parts: seq<string>)
    requires HasPrefix(s)
    ensures parts != [] && parts[0] != [] && parts[0][0] == 'r'
  {
    Split(s[1..], '/')
  }

  function ParseSubnet(t: AddressText, s: string): Result<SubnetId, TextError> {
    if !HasPrefix(s) then Err(WrongPrefix)
    else
      var parts := Segments(s);
      match ParseU64(parts[0][1..])
      case None => Err(BadRoot)
      case Some(root) =>
        match ParseChildren(t, parts[1..])
        case None => Err(BadChild)
        case Some(children) => Ok(SubnetId(root, children))
  }

  lemma {:induction false} ParseChildrenSnoc(t: AddressText, parts: seq<string>, more: string)
    ensures ParseChildren(t, parts + [more]) ==
      if ParseChildren(t, parts).Some? && t.parse(more).Some?
      then Some(ParseChildren(t, parts).value + [t.parse(more).value]) else None
  {
    if parts == [] {
      var one := parts + [more];
      assert one[0] == more && one[1..] == [];
      assert ParseChildren(t, one[1..]) == Some([]);
      if t.parse(more).Some? {
        assert [t.parse(more).value] + [] == [] + [t.parse(more).value];
      }
    } else {
      ParseChildrenSnoc(t, parts[1..], more);
      assert (parts + [more])[1..] == parts[1..] + [more];
      assert (parts + [more])[0] == parts[0];
      if t.parse(parts[0]).Some? && ParseChildren(t, parts[1..]).Some? && t.parse(more).Some? {
        assert [t.parse(parts[0]).value] + (ParseChildren(t, parts[1..]).value + [t.parse(more).value]) ==
               [t.parse(parts[0]).value] + ParseChildren(t, parts[1..]).value + [t.parse(more).value];
      }
    }
  }

  /** Once a part fails, the whole fails. */
  lemma {:induction false} ParseChildrenFails(t: AddressText, parts: seq<string>, i: nat)
    requires i < |parts| && t.parse(parts[i]).None?
    ensures ParseChildren(t, parts).None?
  {
    if i > 0 {
      ParseChildrenFails(t, parts[1..], i - 1);
    }
  }

  method ChildrenFromStr(t: AddressText, parts: seq<string>) returns (r: Option<seq<Address>>)
    ensures r == ParseChildren(t, parts)
  {
    var children := [];
    for i := 0 to |parts|
      invariant ParseChildren(t, parts[..i]) == Some(children)
    {
      var a := t.parse(parts[i]);
      if a.None? {
        ParseChildrenFails(t, parts, i);
        return None;
      }
      ParseChildrenSnoc(t, parts[..i], parts[i]);
      assert parts[..i + 1] == parts[..i] + [parts[i]];
      children := children + [a.value];
    }
    assert parts[..|parts|] == parts;
    return Some(children);
  }

  /** Splits the whole text, skips what precedes the first separator, then reads the root and the children. */
  method SubnetFromStr(t: AddressText, s: string) returns (r: Result<SubnetId, TextError>)
    ensures r == ParseSubnet(t, s)
  {
    if !HasPrefix(s) { return Err(WrongPrefix); }
    var segments := Split(s, '/')[1..];
    assert segments == Segments(s);
    var root := ParseU64(segments[0][1..]);
    if root.None? { return Err(BadRoot); }
    var children := ChildrenFromStr(t, segments[1..]);
    if children.None? { return Err(BadChild); }
    return Ok(SubnetId(root.value, children.value));
  }

  function Texts(t: AddressText, children: seq<Address>): seq<string> {
    seq(|children|, i requires 0 <= i < |children| => t.show(children[i]))
  }

  /** The parts of an identifier's printed form. */
  function Parts(t: AddressText, id: SubnetId): seq<string> {
    ["r" + ShowNat(id.root)] + Texts(t, id.children)
  }

  lemma {:induction false} ShownIsJoined(t: AddressText, head: string, children: seq<Address>)
    ensures head + ShowChildren(t, children) == Join([head] + Texts(t, children), '/')
    decreases |children|
  {
    if children == [] {
      assert [head] + Texts(t, children) == [head];
    } else {
      var text := t.show(children[0]);
      ShownIsJoined(t, text, children[1..]);
      assert ([head] + Texts(t, children))[1..] == [text] + Texts(t, children[1..]);
    }
  }

  lemma {:induction false} TextsParse(t: AddressText, children: seq<Address>)
    requires Faithful(t)
    ensures ParseChildren(t, Texts(t, children)) == Some(children)
  {
    if children != [] {
      TextsParse(t, children[1..]);
      assert Texts(t, children)[1..] == Texts(t, children[1..]);
      assert [children[0]] + children[1..] == children;
    }
  }

  /** The printed form is what joins its parts, and splits back into them. */
  lemma ShownSegments(t: AddressText, id: SubnetId)
    requires Faithful(t)
    ensures HasPrefix(ShowSubnet(t, id)) && Segments(ShowSubnet(t, id)) == Parts(t, id)
  {
    var head := "r" + ShowNat(id.root);
    assert ShowSubnet(t, id)[1..] == head + ShowChildren(t, id.children);
    ShownIsJoined(t, head, id.children);
    assert Free(Parts(t, id), '/');
    SplitJoin(Parts(t, id), '/');
  }

  /** Every subnet identifier with a 64-bit root parses back from its printed form. */
  lemma SubnetRoundTrip(t: AddressText, id: SubnetId)
    requires Faithful(t) && id.root <= U64_MAX
    ensures ParseSubnet(t, ShowSubnet(t, id)) == Ok(id)
  {
    ShownSegments(t, id);
    assert Parts(t, id)[0][1..] == ShowNat(id.root);
    assert Parts(t, id)[1..] == Texts(t, id.children);
    ParseShown(id.root);
    TextsParse(t, id.children);
  }

  /** The address text is the one its address prints as. */
  predicate CanonicalAddress(t: AddressText, s: string) {
    t.parse(s).Some? && t.show(t.parse(s).value) == s
  }

  predicate CanonicalParts(t: AddressText, parts: seq<string>)
    requires parts != [] && parts[0] != []
  {
    CanonicalDecimal(parts[0][1..]) && forall i | 1 <= i < |parts| :: CanonicalAddress(t, parts[i])
  }

  lemma {:induction false} ParsedAt(t: AddressText, parts: seq<string>, i: nat)
    requires ParseChildren(t, parts).Some? && i < |parts|
    ensures |ParseChildren(t, parts).value| == |parts|
    ensures t.parse(parts[i]) == Some(ParseChildren(t, parts).value[i])
    decreases |parts|
  {
    if |parts| > 1 {
      ParsedAt(t, parts[1..], if i > 0 then i - 1 else 0);
    } else {
      assert ParseChildren(t, parts[1..]) == Some([]);
    }
  }

  lemma {:induction false} ParsedLength(t: AddressText, parts: seq<string>)
    requires ParseChildren(t, parts).Some?
    ensures |ParseChildren(t, parts).value| == |parts|
  {
    if parts != [] {
      ParsedAt(t, parts, 0);
    }
  }

  /** The parts of a text are those of the identifier it parses to, exactly when they are canonical. */
  lemma CanonicalPartsExactly(t: AddressText, s: string)
    requires ParseSubnet(t, s).Ok?
    ensures Segments(s) == Parts(t, ParseSubnet(t, s).value) <==> CanonicalParts(t, Segments(s))
  {
    var parts, id := Segments(s), ParseSubnet(t, s).value;
    var shown := Parts(t, id);
    ParsedLength(t, parts[1..]);
    PrintAfterParseNat(parts[0][1..]);
    assert ["r"[0]] + parts[0][1..] == parts[0];
    assert shown[0][1..] == ShowNat(id.root);
    forall i | 1 <= i < |parts| ensures parts[i] == shown[i] <==> CanonicalAddress(t, parts[i]) {
      ParsedAt(t, parts[1..], i - 1);
    }
  }

  /** A text that parses prints as itself exactly when its root has no sign and no leading zero and
      each of its addresses is written as addresses print. */
  lemma PrintAfterParseExactly(t: AddressText, s: string)
    requires Faithful(t) && ParseSubnet(t, s).Ok?
    ensures ShowSubnet(t, ParseSubnet(t, s).value) == s <==> CanonicalParts(t, Segments(s))
  {
    var id := ParseSubnet(t, s).value;
    CanonicalPartsExactly(t, s);
    ShownSegments(t, id);
    JoinSplit(s[1..], '/');
    JoinSplit(ShowSubnet(t, id)[1..], '/');
    assert ['/'] + s[1..] == s;
    assert ['/'] + ShowSubnet(t, id)[1..] == ShowSubnet(t, id);
  }

  /** Every root network has other names that parse to it, as many as there are ways to write its number. */
  lemma SecondNameOfARoot(t: AddressText, root: nat, name: string)
    requires root <= U64_MAX && Writes(name, root)
    ensures ParseSubnet(t, "/r" + name) == Ok(SubnetId(root, []))
  {
    ParsesExactly(name, root);
    var s := "/r" + name;
    assert s[1..] == "r" + name;
    assert '/' !in "r" + name by { NoSlash(name, root); }
    SplitFirst("r" + name, '/', []);
    assert ("r" + name)[1..] == name;
  }

  lemma NoSlash(name: string, root: nat)
    requires Writes(name, root)
    ensures '/' !in name && ':' !in name
  {
    var plus, z :| (plus == "" || plus == "+") && name == plus + Zeros(z) + ShowNat(root);
  }

  /** How an identifier may be written: the root's number in any way, and addresses that parse, between separators. */
  ghost predicate WritesSubnet(t: AddressText, s: string, id: SubnetId) {
    exists parts :: parts != [] && Free(parts, '/') && s == "/" + Join(parts, '/') && WritesParts(t, parts, id)
  }

  ghost predicate WritesParts(t: AddressText, parts: seq<string>, id: SubnetId) {
    && parts != [] && parts[0] != [] && parts[0][0] == 'r'
    && id.root <= U64_MAX && Writes(parts[0][1..], id.root)
    && |parts| == |id.children| + 1
    && forall i | 0 <= i < |id.children| :: t.parse(parts[i + 1]) == Some(id.children[i])
  }

  lemma {:induction false} ParsedExactly(t: AddressText, parts: seq<string>, children: seq<Address>)
    ensures ParseChildren(t, parts) == Some(children)
      <==> |parts| == |children| && forall i | 0 <= i < |parts| :: t.parse(parts[i]) == Some(children[i])
    decreases |parts|
  {
    if parts != [] && children != [] {
      ParsedExactly(t, parts[1..], children[1..]);
      assert children == [children[0]] + children[1..];
      assert (|parts| == |children| && forall i | 0 <= i < |parts| :: t.parse(parts[i]) == Some(children[i])) <==>
        && t.parse(parts[0]) == Some(children[0])
        && |parts[1..]| == |children[1..]| && forall i | 0 <= i < |parts[1..]| :: t.parse(parts[1..][i]) == Some(children[1..][i])
      by { AllAfterFirst(t, parts, children); }
    }
  }

  lemma AllAfterFirst(t: AddressText, parts: seq<string>, children: seq<Address>)
    requires parts != [] && children != []
    ensures (|parts| == |children| && forall i | 0 <= i < |parts| :: t.parse(parts[i]) == Some(children[i])) <==>
      && t.parse(parts[0]) == Some(children[0])
      && |parts[1..]| == |children[1..]| && forall i | 0 <= i < |parts[1..]| :: t.parse(parts[1..][i]) == Some(children[1..][i])
  {
    if |parts| == |children| {
      assert forall i | 1 <= i < |parts| :: parts[i] == parts[1..][i - 1] && children[i] == children[1..][i - 1];
    }
  }

  lemma {:induction false} SplitIsFree(s: string, sep: char)
    ensures Free(Split(s, sep), sep)
  {
    if s != [] {
      SplitIsFree(s[1..], sep);
    }
  }

  lemma {:induction false} SegmentsParse(t: AddressText, s: string, id: SubnetId)
    requires HasPrefix(s)
    ensures ParseSubnet(t, s) == Ok(id) <==> WritesParts(t, Segments(s), id)
  {
    var parts := Segments(s);
    ParsesExactly(parts[0][1..], id.root);
    ParsedExactly(t, parts[1..], id.children);
    assert forall i | 0 <= i < |parts| - 1 :: parts[1..][i] == parts[i + 1];
    if ParseSubnet(t, s).Ok? {
      ParsedLength(t, parts[1..]);
    }
  }

  /** A text parses to an identifier exactly if it is a way to write it; everything else is an error. */
  lemma {:induction false} SubnetParsesExactly(t: AddressText, s: string, id: SubnetId)
    ensures ParseSubnet(t, s) == Ok(id) <==> WritesSubnet(t, s, id)
  {
    if ParseSubnet(t, s) == Ok(id) {
      SegmentsParse(t, s, id);
      JoinSplit(s[1..], '/');
      SplitIsFree(s[1..], '/');
      assert s == "/" + s[1..];
      assert s == "/" + Join(Segments(s), '/');
    }
    if WritesSubnet(t, s, id) {
      var parts :| parts != [] && Free(parts, '/') && s == "/" + Join(parts, '/') && WritesParts(t, parts, id);
      assert s[1..] == Join(parts, '/');
      SplitJoin(parts, '/');
      SegmentsParse(t, s, id);
    }
  }

  // ----- Addresses in a subnet -----------------------------------------------------------------

  function ShowIpc(t: AddressText, a: IpcAddress): string {
    ShowSubnet(t, a.subnet) + ":" + t.show(a.raw)
  }

  function ParseIpc(t: AddressText, s: string): Result<IpcAddress, TextError> {
    var r := Split(s, ':');
    if |r| != 2 then Err(BadIpcAddress)
    else match t.parse(r[1])
      case None => Err(BadAddress)
      case Some(raw) =>
        match ParseSubnet(t, r[0])
        case Err(e) => Err(e)
        case Ok(subnet) => Ok(IpcAddress(subnet, raw))
  }

  lemma {:induction false} NoColonInChildren(t: AddressText, children: seq<Address>)
    requires Faithful(t)
    ensures ':' !in ShowChildren(t, children)
  {
    if children != [] {
      NoColonInChildren(t, children[1..]);
    }
  }

  /** Every address in a subnet parses back from its printed form. */
  lemma IpcRoundTrip(t: AddressText, a: IpcAddress)
    requires Faithful(t) && a.subnet.root <= U64_MAX
    ensures ParseIpc(t, ShowIpc(t, a)) == Ok(a)
  {
    var subnet, raw := ShowSubnet(t, a.subnet), t.show(a.raw);
    NoColonInChildren(t, a.subnet.children);
    assert ':' !in subnet;
    SplitFirst(subnet, ':', raw);
    SplitFirst(raw, ':', []);
    SubnetRoundTrip(t, a.subnet);
  }

  /** A text parses to an address in a subnet exactly if one colon parts a text of the subnet from one of the address. */
  lemma {:induction false} IpcParsesExactly(t: AddressText, s: string, a: IpcAddress)
    ensures ParseIpc(t, s) == Ok(a) <==> exists x, y :: WritesIpc(t, s, x, y, a)
  {
    if ParseIpc(t, s) == Ok(a) {
      var r := Split(s, ':');
      JoinSplit(s, ':');
      SplitIsFree(s, ':');
      SubnetParsesExactly(t, r[0], a.subnet);
      assert r == [r[0], r[1]] && r[1..] == [r[1]];
      assert WritesIpc(t, s, r[0], r[1], a);
    }
    if x, y :| WritesIpc(t, s, x, y, a) {
      SplitFirst(x, ':', y);
      SplitFirst(y, ':', []);
      SubnetParsesExactly(t, x, a.subnet);
    }
  }

  ghost predicate WritesIpc(t: AddressText, s: string, x: string, y: string, a: IpcAddress) {
    s == x + ":" + y && ':' !in x && ':' !in y && WritesSubnet(t, x, a.subnet) && t.parse(y) == Some(a.raw)
  }

  /** What identifiers and addresses look like. */
  lemma PrintsAsDocumented(t: AddressText, a: Address, b: Address)
    ensures ShowSubnet(t, SubnetId(123, [])) == "/r123"
    ensures ShowSubnet(t, SubnetId(123, [a, b])) == "/r123/" + t.show(a) + "/" + t.show(b)
    ensures ShowIpc(t, IpcAddress(SubnetId(123, [a]), b)) == "/r123/" + t.show(a) + ":" + t.show(b)
  {
    assert ShowNat(1) == "1" && ShowNat(12) == "12" && ShowNat(123) == "123";
    assert ShowChildren(t, []) == [];
    assert [a, b][1..] == [b] && [b][1..] == [] && [a][1..] == [];
    assert ShowChildren(t, [b]) == "/" + t.show(b);
    assert ShowChildren(t, [a, b]) == "/" + t.show(a) + ("/" + t.show(b));
  }
}
