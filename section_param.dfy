/** The command-line side of the section tables: `parse_section_param` reads one
    `NAME@ADDR:LEN` argument, `main` merges the arguments into the two tables and then
    widens the address space so that it covers the highest-placed section. */
module SectionParam {
  import opened Outcomes
  import opened OrderedDict
  import Layout

  // ----- numeric literals: int(text, 0) -----

  /** The value of a digit character in bases up to 16, either case; -1 for any other. */
  function DigitValue(c: char): int {
    if '0' <= c <= '9' then c as int - '0' as int
    else if 'a' <= c <= 'f' then c as int - 'a' as int + 10
    else if 'A' <= c <= 'F' then c as int - 'A' as int + 10
    else -1
  }

  /** The digits `d`, most significant first, read in base `base`; `None` when `d` is
      empty or holds a character that is not a digit of that base. */
  function DigitsValue(d: string, base: nat): (r: Option<nat>)
    decreases |d|
  {
    if d == [] then None
    else
      var v := DigitValue(d[|d| - 1]);
      if v < 0 || v >= base then None
      else if |d| == 1 then Some(v)
      else
        match DigitsValue(d[..|d| - 1], base)
        case None => None
        case Some(high) => Some(high * base + v)
  }

  predicate AllZeros(t: string) {
    forall i :: 0 <= i < |t| ==> t[i] == '0'
  }

  /** `int(text, 0)` on the characters a section argument can hold: `0x`, `0o` and `0b`
      prefixes (either case) select bases 16, 8 and 2; otherwise the literal is decimal,
      where a leading zero is allowed only in a literal made of zeros. */
  function ParseInt0(t: string): (r: Result<int>)
    ensures r.Err? ==> r.error == InvalidLiteral(t)
    ensures r.Ok? ==> r.value >= 0
  {
    var v :=
      if |t| >= 2 && t[0] == '0' && (t[1] == 'x' || t[1] == 'X') then DigitsValue(t[2..], 16)
      else if |t| >= 2 && t[0] == '0' && (t[1] == 'o' || t[1] == 'O') then DigitsValue(t[2..], 8)
      else if |t| >= 2 && t[0] == '0' && (t[1] == 'b' || t[1] == 'B') then DigitsValue(t[2..], 2)
      else if |t| >= 1 && t[0] == '0' then (if AllZeros(t) then Some(0) else None)
      else DigitsValue(t, 10);
    if v.Some? then Ok(v.value) else Err(InvalidLiteral(t))
  }

  /** The digit of value `k` (lower case). */
  function DigitChar(k: nat): char
    requires k < 16
  {
    if k < 10 then ('0' as int + k) as char else ('a' as int + k - 10) as char
  }

  /** The digits of `n` in base `base`, most significant first, without leading zeros. */
  function Digits(n: nat, base: nat): (d: string)
    requires 2 <= base <= 16
    decreases n
  {
    if n < base then [DigitChar(n)] else Digits(n / base, base) + [DigitChar(n % base)]
  }

  /** Reading the digits of `n` back gives `n`. */
  lemma {:induction false} DigitsRoundTrip(n: nat, base: nat)
    requires 2 <= base <= 16
    ensures DigitsValue(Digits(n, base), base) == Some(n)
    decreases n
  {
    var d := Digits(n, base);
    QuotientRemainder(n, base);
    DigitCharValue(n % base);
    if n >= base {
      QuotientBelow(n, base);
      DigitsRoundTrip(n / base, base);
      assert d[..|d| - 1] == Digits(n / base, base);
      assert DigitValue(d[|d| - 1]) == n % base;
    }
  }

  /** Dropping the last digit leaves a smaller, positive number. */
  lemma QuotientBelow(n: nat, base: nat)
    requires 2 <= base <= n
    ensures 0 < n / base < n
  {
  }

  /** A number is its quotient times the base plus its last digit. */
  lemma QuotientRemainder(n: nat, base: nat)
    requires 2 <= base
    ensures n == (n / base) * base + n % base && 0 <= n % base < base
  {
  }

  /** Each digit character reads back as its value and is a number character. */
  lemma DigitCharValue(k: nat)
    requires k < 16
    ensures DigitValue(DigitChar(k)) == k && IsNumChar(DigitChar(k))
    ensures k < 10 ==> '0' <= DigitChar(k) <= '9'
  {
  }

  /** The digits of `n` are number characters, and the first one is `0` only for `n == 0`. */
  lemma {:induction false} DigitsShape(n: nat, base: nat)
    requires 2 <= base <= 16
    ensures |Digits(n, base)| >= 1
    ensures forall i :: 0 <= i < |Digits(n, base)| ==> IsNumChar(Digits(n, base)[i])
    ensures base <= 10 ==> forall i :: 0 <= i < |Digits(n, base)| ==> '0' <= Digits(n, base)[i] <= '9'
    ensures (Digits(n, base)[0] == '0') == (n == 0)
    decreases n
  {
    DigitCharValue(n % base);
    if n < base {
      assert Digits(n, base) == [DigitChar(n)];
    } else {
      var high := Digits(n / base, base);
      QuotientBelow(n, base);
      DigitsShape(n / base, base);
      var d := Digits(n, base);
      assert d == high + [DigitChar(n % base)];
      forall i | 0 <= i < |d|
        ensures IsNumChar(d[i]) && (base <= 10 ==> '0' <= d[i] <= '9')
      {
        if i < |high| {
          assert d[i] == high[i];
        }
      }
      assert d[0] == high[0];
    }
  }

  /** A hex literal as Python writes it is read back exactly. */
  lemma HexRoundTrip(n: nat)
    ensures ParseInt0("0x" + Digits(n, 16)) == Ok(n)
  {
    DigitsRoundTrip(n, 16);
    assert ("0x" + Digits(n, 16))[2..] == Digits(n, 16);
  }

  /** A binary literal as Python writes it is read back exactly. */
  lemma BinRoundTrip(n: nat)
    ensures ParseInt0("0b" + Digits(n, 2)) == Ok(n)
  {
    DigitsRoundTrip(n, 2);
    assert ("0b" + Digits(n, 2))[2..] == Digits(n, 2);
  }

  /** A decimal literal as Python writes it is read back exactly. */
  lemma DecRoundTrip(n: nat)
    ensures ParseInt0(Digits(n, 10)) == Ok(n)
  {
    DigitsRoundTrip(n, 10);
    DigitsShape(n, 10);
    if n == 0 {
      assert Digits(n, 10) == "0";
    }
  }

  /** A decimal literal with a leading zero is rejected unless it is all zeros. */
  lemma LeadingZeroRejected(n: nat)
    ensures ParseInt0("0" + Digits(n, 10)) == (if n == 0 then Ok(0) else Err(InvalidLiteral("0" + Digits(n, 10))))
  {
    DigitsShape(n, 10);
    var z := "0" + Digits(n, 10);
    assert z[1] == Digits(n, 10)[0];
    if n == 0 {
      assert Digits(n, 10) == "0";
      assert z == "00";
    } else {
      assert !AllZeros(z) by {
        assert z[1] != '0';
      }
      assert '0' <= z[1] <= '9';
    }
  }

  // ----- parse_section_param -----

  /** `[0-9A-Za-z._-]`, the characters of a section name. */
  predicate IsNameChar(c: char) {
    '0' <= c <= '9' || 'A' <= c <= 'Z' || 'a' <= c <= 'z' || c == '.' || c == '_' || c == '-'
  }

  /** `[Xx0-9A-Fa-f]`, the characters of an address or a length. */
  predicate IsNumChar(c: char) {
    c == 'X' || c == 'x' || '0' <= c <= '9' || 'A' <= c <= 'F' || 'a' <= c <= 'f'
  }

  /** Where the longest run of name characters (`name == true`) or of number characters
      starting at `i` ends. */
  function RunEnd(s: string, i: nat, name: bool): (e: nat)
    requires i <= |s|
    ensures i <= e <= |s|
    decreases |s| - i
  {
    if i == |s| || !(if name then IsNameChar(s[i]) else IsNumChar(s[i])) then i
    else RunEnd(s, i + 1, name)
  }

  /** The first name character at or after `i`, or `|s|`. */
  function FirstNameChar(s: string, i: nat): (f: nat)
    requires i <= |s|
    ensures i <= f <= |s|
    decreases |s| - i
  {
    if i == |s| || IsNameChar(s[i]) then i else FirstNameChar(s, i + 1)
  }

  /** The groups the pattern captures in one argument. */
  datatype Captures = Captures(name: string, addr: Option<string>, len: Option<string>)

  /** The number group after an optional `sep` at `k`: the longest non-empty run of
      number characters after the separator, and where the match continues. */
  function OptionalNumber(s: string, k: nat, sep: char): (r: (Option<string>, nat))
    requires k <= |s|
    ensures k <= r.1 <= |s|
  {
    if k + 1 < |s| && s[k] == sep && IsNumChar(s[k + 1]) then
      var e := RunEnd(s, k + 1, false);
      (Some(s[k + 1 .. e]), e)
    else (None, k)
  }

  /** The leftmost match of `NAME(@ADDR)?(:LEN)?` in `s`, as `re.search` finds it: the
      name is the first run of name characters, taken whole. */
  function Search(s: string): Option<Captures> {
    var i := FirstNameChar(s, 0);
    if i == |s| then None
    else
      var e := RunEnd(s, i, true);
      var (addr, k) := OptionalNumber(s, e, '@');
      var (len, _) := OptionalNumber(s, k, ':');
      Some(Captures(s[i..e], addr, len))
  }

  /** One `--section` argument: a name with an optional address and an optional length. */
  datatype SectionArg = SectionArg(name: string, addr: Option<int>, len: Option<int>)

  /** `parse_section_param`. An argument without any name character fails, and so does an
      address or length that is not a valid literal (the address is read first). */
  function ParseSectionParam(s: string): (r: Result<SectionArg>)
    ensures r.Err? ==> r.error == NoSectionName || r.error.InvalidLiteral?
  {
    match Search(s)
    case None => Err(NoSectionName)
    case Some(c) =>
      var addr := if c.addr.Some? then ParseInt0(c.addr.value) else Ok(0);
      if addr.Err? then Err(addr.error)
      else
        var len := if c.len.Some? then ParseInt0(c.len.value) else Ok(0);
        if len.Err? then Err(len.error)
        else Ok(SectionArg(c.name,
                           if c.addr.Some? then Some(addr.value) else None,
                           if c.len.Some? then Some(len.value) else None))
  }

  /** `NAME@0xADDR:0xLEN` with either part optional, as a user would write it. */
  function FormatSectionArg(name: string, addr: Option<nat>, len: Option<nat>): string {
    name + AddrPart(addr) + LenPart(len)
  }

  /** A run of the kind `name` that covers `s[i..e]` and stops at `e` ends at `e`. */
  lemma {:induction false} RunEndAt(s: string, i: nat, e: nat, name: bool)
    requires i <= e <= |s|
    requires forall j :: i <= j < e ==> (if name then IsNameChar(s[j]) else IsNumChar(s[j]))
    requires e == |s| || !(if name then IsNameChar(s[e]) else IsNumChar(s[e]))
    ensures RunEnd(s, i, name) == e
    decreases e - i
  {
    if i < e {
      RunEndAt(s, i + 1, e, name);
    }
  }

  /** The number group after `sep` in `head + part + tail`, where `part` is `sep`
      followed by a hex literal, is that literal when `tail` does not go on with a
      number character. */
  lemma NumberGroupIn(head: string, part: string, sep: char, n: nat, tail: string)
    requires part == [sep] + "0x" + Digits(n, 16)
    requires tail == [] || !IsNumChar(tail[0])
    ensures OptionalNumber(head + part + tail, |head|, sep)
         == (Some("0x" + Digits(n, 16)), |head| + |part|)
  {
    var d := Digits(n, 16);
    var s := head + part + tail;
    var k := |head|;
    var e := k + |part|;
    DigitsShape(n, 16);
    forall j | k + 1 <= j < e
      ensures IsNumChar(s[j])
    {
      assert s[j] == part[j - k];
      if j >= k + 3 {
        assert part[j - k] == d[j - k - 3];
      }
    }
    assert e < |s| ==> s[e] == tail[0];
    RunEndAt(s, k + 1, e, false);
    assert s[k + 1 .. e] == part[1..];
    assert part[1..] == "0x" + d;
  }

  /** Without `sep` at `k` there is no number group there. */
  lemma NoNumberGroup(s: string, k: nat, sep: char)
    requires k <= |s| && (k == |s| || s[k] != sep)
    ensures OptionalNumber(s, k, sep) == (None, k)
  {
  }

  /** The two optional parts of a formatted argument. */
  function AddrPart(addr: Option<nat>): string {
    if addr.Some? then "@0x" + Digits(addr.value, 16) else ""
  }

  function LenPart(len: Option<nat>): string {
    if len.Some? then ":0x" + Digits(len.value, 16) else ""
  }

  /** The literal a formatted part holds. */
  function Literal(v: Option<nat>): Option<string> {
    if v.Some? then Some("0x" + Digits(v.value, 16)) else None
  }

  /** The search finds the name of a formatted argument, whole. */
  lemma NameGroup(name: string, rest: string)
    requires |name| > 0 && forall i :: 0 <= i < |name| ==> IsNameChar(name[i])
    requires rest == [] || rest[0] == '@' || rest[0] == ':'
    ensures FirstNameChar(name + rest, 0) == 0
    ensures RunEnd(name + rest, 0, true) == |name|
  {
    var s := name + rest;
    assert s[0] == name[0];
    assert |name| < |s| ==> s[|name|] == rest[0];
    RunEndAt(s, 0, |name|, true);
  }

  /** The search finds the address literal of a formatted argument. */
  lemma AddrGroup(name: string, addr: Option<nat>, rest: string)
    requires rest == [] || rest[0] == ':'
    ensures OptionalNumber(name + AddrPart(addr) + rest, |name|, '@')
         == (Literal(addr), |name| + |AddrPart(addr)|)
  {
    var s := name + AddrPart(addr) + rest;
    if addr.Some? {
      assert AddrPart(addr) == ['@'] + "0x" + Digits(addr.value, 16);
      NumberGroupIn(name, AddrPart(addr), '@', addr.value, rest);
    } else {
      assert s == name + rest;
      assert |name| < |s| ==> s[|name|] == rest[0];
      NoNumberGroup(s, |name|, '@');
    }
  }

  /** The search finds the length literal of a formatted argument. */
  lemma LenGroup(head: string, len: Option<nat>)
    ensures OptionalNumber(head + LenPart(len), |head|, ':') == (Literal(len), |head| + |LenPart(len)|)
  {
    if len.Some? {
      assert LenPart(len) == [':'] + "0x" + Digits(len.value, 16);
      NumberGroupIn(head, LenPart(len), ':', len.value, []);
      assert head + LenPart(len) + [] == head + LenPart(len);
    } else {
      assert head + LenPart(len) == head;
      NoNumberGroup(head, |head|, ':');
    }
  }

  /** The search captures exactly the parts a formatted argument was made of. */
  lemma SearchFormatted(name: string, addr: Option<nat>, len: Option<nat>)
    requires |name| > 0 && forall i :: 0 <= i < |name| ==> IsNameChar(name[i])
    ensures Search(FormatSectionArg(name, addr, len)) == Some(Captures(name, Literal(addr), Literal(len)))
  {
    var a := AddrPart(addr);
    var l := LenPart(len);
    var s := name + a + l;
    assert s == FormatSectionArg(name, addr, len);
    var rest := a + l;
    assert s == name + rest;
    assert rest == [] || rest[0] == '@' || rest[0] == ':' by {
      if a != [] {
        assert rest[0] == a[0];
      }
    }
    NameGroup(name, rest);
    assert s[0..|name|] == name;
    assert l == [] || l[0] == ':';
    AddrGroup(name, addr, l);
    LenGroup(name + a, len);
  }

  /** Parsing a formatted argument gives back its name, address and length. */
  lemma ParseFormatted(name: string, addr: Option<nat>, len: Option<nat>)
    requires |name| > 0 && forall i :: 0 <= i < |name| ==> IsNameChar(name[i])
    ensures ParseSectionParam(FormatSectionArg(name, addr, len))
         == Ok(SectionArg(name, if addr.Some? then Some(addr.value as int) else None,
                                if len.Some? then Some(len.value as int) else None))
  {
    SearchFormatted(name, addr, len);
    if addr.Some? {
      HexRoundTrip(addr.value);
    }
    if len.Some? {
      HexRoundTrip(len.value);
    }
  }

  // ----- merging the arguments -----

  /** The address table after the arguments `args`: each address given replaces an
      earlier one for the same name. */
  function AddrTable(args: seq<SectionArg>): ODict
    decreases |args|
  {
    if args == [] then Empty
    else
      var t := AddrTable(args[..|args| - 1]);
      var a := args[|args| - 1];
      if a.addr.Some? then Put(t, a.name, a.addr.value) else t
  }

  /** The size table after the arguments `args`. */
  function SizeTable(args: seq<SectionArg>): ODict
    decreases |args|
  {
    if args == [] then Empty
    else
      var t := SizeTable(args[..|args| - 1]);
      var a := args[|args| - 1];
      if a.len.Some? then Put(t, a.name, a.len.value) else t
  }

  /** The last address given for `name` among `args`, if any. */
  function LastAddr(args: seq<SectionArg>, name: string): Option<int>
    decreases |args|
  {
    if args == [] then None
    else if args[|args| - 1].name == name && args[|args| - 1].addr.Some? then args[|args| - 1].addr
    else LastAddr(args[..|args| - 1], name)
  }

  /** The last length given for `name` among `args`, if any. */
  function LastLen(args: seq<SectionArg>, name: string): Option<int>
    decreases |args|
  {
    if args == [] then None
    else if args[|args| - 1].name == name && args[|args| - 1].len.Some? then args[|args| - 1].len
    else LastLen(args[..|args| - 1], name)
  }

  /** The merged tables are well formed, and map each name to the last address and the
      last length given for it: later arguments win. */
  lemma {:induction false} TablesOfArgs(args: seq<SectionArg>)
    ensures AddrTable(args).Valid() && SizeTable(args).Valid()
    ensures forall n ::
      && (n in AddrTable(args).vals <==> LastAddr(args, n).Some?)
      && (n in AddrTable(args).vals ==> AddrTable(args).vals[n] == LastAddr(args, n).value)
    ensures forall n ::
      && (n in SizeTable(args).vals <==> LastLen(args, n).Some?)
      && (n in SizeTable(args).vals ==> SizeTable(args).vals[n] == LastLen(args, n).value)
    decreases |args|
  {
    if args != [] {
      var p := args[..|args| - 1];
      var a := args[|args| - 1];
      TablesOfArgs(p);
      if a.addr.Some? {
        PutValid(AddrTable(p), a.name, a.addr.value);
      }
      if a.len.Some? {
        PutValid(SizeTable(p), a.name, a.len.value);
      }
    }
  }

  /** The merging loop of `main`: `section_addr.update(...)` and `section_size.update(...)`
      for each parsed argument in turn. */
  method MergeSectionArgs(args: seq<SectionArg>) returns (addr: ODict, size: ODict)
    ensures addr == AddrTable(args) && size == SizeTable(args)
  {
    addr := Empty;
    size := Empty;
    var i := 0;
    while i < |args|
      invariant i <= |args|
      invariant addr == AddrTable(args[..i]) && size == SizeTable(args[..i])
    {
      var a := args[i];
      assert args[..i + 1][..i] == args[..i];
      if a.addr.Some? {
        addr := Put(addr, a.name, a.addr.value);
      }
      if a.len.Some? {
        size := Put(size, a.name, a.len.value);
      }
      i := i + 1;
    }
    assert args[..i] == args;
  }

  // ----- widening the address space -----

  /** `max(section_addr, key=section_addr.get)`: the first key, in table order, with the
      highest address. */
  function HighestKey(keys: seq<string>, vals: map<string, int>): (h: string)
    requires |keys| > 0 && forall k :: k in keys ==> k in vals
    ensures h in keys
    decreases |keys|
  {
    if |keys| == 1 then keys[0]
    else
      var best := HighestKey(keys[..|keys| - 1], vals);
      if vals[keys[|keys| - 1]] > vals[best] then keys[|keys| - 1] else best
  }

  /** The highest key is a key whose address is at least every other one, and no key
      before it has the same address. */
  lemma {:induction false} HighestKeyIsFirstMaximum(keys: seq<string>, vals: map<string, int>)
    requires |keys| > 0 && forall k :: k in keys ==> k in vals
    ensures var h := HighestKey(keys, vals);
      && h in keys
      && (forall k :: k in keys ==> vals[k] <= vals[h])
      && (forall i :: 0 <= i < |keys| && keys[i] != h && vals[keys[i]] == vals[h] ==>
            exists j :: 0 <= j < i && keys[j] == h)
    decreases |keys|
  {
    if |keys| > 1 {
      var p := keys[..|keys| - 1];
      var last := keys[|keys| - 1];
      assert forall k :: k in p ==> k in keys;
      HighestKeyIsFirstMaximum(p, vals);
      var b := HighestKey(p, vals);
      assert keys == p + [last];
      var h := HighestKey(keys, vals);
      forall i | 0 <= i < |keys| && keys[i] != h && vals[keys[i]] == vals[h]
        ensures exists j :: 0 <= j < i && keys[j] == h
      {
        if h == b {
          if i < |p| {
            assert p[i] == keys[i];
            var j :| 0 <= j < i && p[j] == h;
            assert keys[j] == h;
          } else {
            var j :| 0 <= j < |p| && p[j] == b;
            assert keys[j] == h;
          }
        } else {
          assert false;
        }
      }
    }
  }

  /** The end of the address space needed by the highest-placed section, as `main`
      computes it: the section's size is looked up without a check, so a highest-placed
      section given without a length stops the program. */
  function NeededLenAsWritten(addr: ODict, size: ODict, base: int): (r: Result<int>)
    requires addr.Valid() && |addr.keys| > 0
    ensures r.Err? <==> HighestKey(addr.keys, addr.vals) !in size.vals
  {
    var last := HighestKey(addr.keys, addr.vals);
    if last !in size.vals then Err(MissingSize(last))
    else Ok(addr.vals[last] + size.vals[last] - base)
  }

  /** The same with a missing length counted as 0: the section ends no earlier than it
      starts. */
  function NeededLen(addr: ODict, size: ODict, base: int): int
    requires addr.Valid() && |addr.keys| > 0
  {
    var last := HighestKey(addr.keys, addr.vals);
    addr.vals[last] + (if last in size.vals then size.vals[last] else 0) - base
  }

  /** The address space after widening: `min(end, 0xFFFFFFFF)` when the needed end is past
      it, unchanged otherwise; with no addresses given nothing is widened. */
  function WidenedLen(addr: ODict, size: ODict, base: int, addrspacelen: int): (r: int)
    requires addr.Valid()
    ensures r >= addrspacelen || r == 0xFFFF_FFFF
    ensures r <= addrspacelen || r <= 0xFFFF_FFFF
  {
    if |addr.keys| == 0 then addrspacelen
    else
      var needed := NeededLen(addr, size, base);
      if needed > addrspacelen then (if needed <= 0xFFFF_FFFF then needed else 0xFFFF_FFFF)
      else addrspacelen
  }

  /** Unless it is capped at `0xFFFFFFFF`, the widened address space reaches, from `base`,
      the start of every section given with an address and the end of the highest-placed
      one, and it is never narrowed. It is widened no further than that end, and not at
      all when the requested length already covers it: the result is the larger of the
      requested length and the needed end, capped. */
  lemma WidenedCovers(addr: ODict, size: ODict, base: int, addrspacelen: int)
    requires addr.Valid() && forall n :: n in size.vals ==> size.vals[n] >= 0
    ensures var w := WidenedLen(addr, size, base, addrspacelen);
      && (w >= addrspacelen || w == 0xFFFF_FFFF)
      && (forall n :: n in addr.vals ==> w == 0xFFFF_FFFF || addr.vals[n] - base <= w)
      && (|addr.keys| > 0 ==> w == 0xFFFF_FFFF || NeededLen(addr, size, base) <= w)
      && (w == addrspacelen || w == 0xFFFF_FFFF || (|addr.keys| > 0 && w == NeededLen(addr, size, base)))
      && ((|addr.keys| == 0 || NeededLen(addr, size, base) <= addrspacelen) ==> w == addrspacelen)
      && (|addr.keys| > 0 && NeededLen(addr, size, base) > addrspacelen ==> w <= NeededLen(addr, size, base))
  {
    if |addr.keys| > 0 {
      HighestKeyIsFirstMaximum(addr.keys, addr.vals);
    }
  }

  /** Parsing `-s .ARM.exidx@0x1001000`, an override the `.ARM.exidx` step explicitly
      supports (a default 16-byte length), leaves the highest-placed section without a
      length, so the address-space check in `main` stops the program. */
  lemma AddressOnlyOverrideStops()
    ensures var t := AddrTable([SectionArg(".ARM.exidx", Some(0x100_1000), None)]);
      var s := SizeTable([SectionArg(".ARM.exidx", Some(0x100_1000), None)]);
      t.Valid() && |t.keys| > 0
      && NeededLenAsWritten(t, s, 0x100_0000) == Err(MissingSize(".ARM.exidx"))
      && NeededLen(t, s, 0x100_0000) == 0x1000
  {
    var args := [SectionArg(".ARM.exidx", Some(0x100_1000), None)];
    assert args[..0] == [];
    TablesOfArgs(args);
  }

  /** Lines 658-676 of `main`: the options object with the merged tables and the
      widened address space, for a base address and a requested address-space length. */
  method PrepareOptions(baseaddr: int, addrspacelen: int, args: seq<SectionArg>) returns (po: Layout.Options)
    ensures po.baseaddr == baseaddr
    ensures po.sectionAddr == AddrTable(args) && po.sectionSize == SizeTable(args)
    ensures po.sectionAddr.Valid() && po.sectionSize.Valid()
    ensures po.addrspacelen == WidenedLen(AddrTable(args), SizeTable(args), baseaddr, addrspacelen)
  {
    var addr, size := MergeSectionArgs(args);
    TablesOfArgs(args);
    po := new Layout.Options(baseaddr, addrspacelen, addr, size);
    if |addr.keys| > 0 {
      var last := HighestKey(addr.keys, addr.vals);
      var lastLen := if last in size.vals then size.vals[last] else 0;
      var lastEnd := addr.vals[last] + lastLen - po.baseaddr;
      if lastEnd > po.addrspacelen {
        po.addrspacelen := if lastEnd <= 0xFFFF_FFFF then lastEnd else 0xFFFF_FFFF;
      }
    }
  }
}
