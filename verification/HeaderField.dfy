/** Header lines of a request, and the length one of them declares. */
module HeaderField {
  import opened Machine
  import opened Wrappers
  import opened Text

  // ---------- lines ----------

  function IndexOf(s: string, c: char): (p: nat)
    ensures p <= |s|
    ensures p < |s| ==> s[p] == c
    ensures forall i :: 0 <= i < p ==> s[i] != c
  {
    if s == "" || s[0] == c then 0 else 1 + IndexOf(s[1..], c)
  }

  function StripCarriageReturn(s: string): string {
    if s != "" && s[|s| - 1] == '\r' then s[..|s| - 1] else s
  }

  // `str::lines`
  function Lines(s: string): seq<string>
    decreases |s|
  {
    if s == "" then []
    else
      var p := IndexOf(s, '\n');
      if p == |s| then [s] else [StripCarriageReturn(s[..p])] + Lines(s[p + 1..])
  }

  const CRLF: string := "\r\n"

  lemma {:induction false} IndexOfIs(s: string, c: char, p: nat)
    requires p < |s| && s[p] == c && forall i :: 0 <= i < p ==> s[i] != c
    ensures IndexOf(s, c) == p
  {
  }

  lemma LineSplits(line: string, rest: string)
    requires forall i :: 0 <= i < |line| ==> line[i] != '\n' && line[i] != '\r'
    ensures Lines(line + CRLF + rest) == [line] + Lines(rest)
  {
    var s, n := line + CRLF + rest, |line|;
    IndexOfIs(s, '\n', n + 1);
    assert s[..n + 1] == line + "\r" && s[n + 2..] == rest;
    assert StripCarriageReturn(line + "\r") == line;
  }

  // A line may also end without a carriage return, and the last one without any end.
  lemma BareLineSplits(line: string, rest: string)
    requires forall i :: 0 <= i < |line| ==> line[i] != '\n'
    requires line == "" || line[|line| - 1] != '\r'
    ensures Lines(line + "\n" + rest) == [line] + Lines(rest)
    ensures line != "" ==> Lines(line) == [line]
  {
    var s, n := line + "\n" + rest, |line|;
    IndexOfIs(s, '\n', n);
    assert s[..n] == line && s[n + 1..] == rest;
    assert IndexOf(line, '\n') == n;
  }

  // ---------- the declared length ----------

  function Lower(c: char): char {
    if 'A' <= c <= 'Z' then (c as int - 'A' as int + 'a' as int) as char else c
  }

  function LowerCase(s: string): string {
    seq(|s|, i requires 0 <= i < |s| => Lower(s[i]))
  }

  // `char::is_whitespace`
  predicate IsSpace(c: char) {
    var n := c as int;
    || 0x9 <= n <= 0xD || n == 0x20 || n == 0x85 || n == 0xA0 || n == 0x1680 || 0x2000 <= n <= 0x200A
    || n == 0x2028 || n == 0x2029 || n == 0x202F || n == 0x205F || n == 0x3000
  }

  function TrimStart(s: string): string {
    if s != "" && IsSpace(s[0]) then TrimStart(s[1..]) else s
  }

  function TrimEnd(s: string): string {
    if s != "" && IsSpace(s[|s| - 1]) then TrimEnd(s[..|s| - 1]) else s
  }

  predicate AllDigits(s: string) {
    forall i :: 0 <= i < |s| ==> IsDigit(s[i])
  }

  // `parse::<usize>`: an optional plus sign and at least one digit, in range.
  function ParseUsize(s: string): Option<u64> {
    var digits := if s != "" && s[0] == '+' then s[1..] else s;
    if digits == "" || !AllDigits(digits) || ReadDecimal(digits) >= TWO64 then None else Some(ReadDecimal(digits))
  }

  const FIELD: string := "content-length:"

  // The value a header line declares: zero when the line is the field but its value does not parse.
  function DeclaredBy(line: string): Option<u64> {
    var lower := LowerCase(line);
    if FIELD <= lower then
      match ParseUsize(TrimEnd(TrimStart(lower[|FIELD|..])))
      case Some(n) => Some(n)
      case None => Some(0)
    else None
  }

  function FirstDeclared(lines: seq<string>): u64 {
    if lines == [] then 0
    else
      match DeclaredBy(lines[0])
      case Some(n) => n
      case None => FirstDeclared(lines[1..])
  }

  function ContentLength(head: string): u64 {
    FirstDeclared(Lines(head))
  }

  lemma LengthFieldDeclares(n: u64)
    ensures DeclaredBy("Content-Length: " + Decimal(n)) == Some(n)
  {
    var digits := Decimal(n);
    LowerConcat("Content-Length: ", digits);
    DigitsStayLower(digits);
    assert LowerCase("Content-Length: ") == FIELD + " ";
    hide LowerCase, ParseUsize, TrimStart, TrimEnd;
    var lower := LowerCase("Content-Length: " + digits);
    assert lower == FIELD + (" " + digits);
    AfterPrefix(FIELD, " " + digits);
    ReadsBack(n);
  }

  lemma AfterPrefix(a: string, b: string)
    ensures a <= a + b && (a + b)[|a|..] == b
  {
  }

  lemma ReadsBack(n: u64)
    ensures ParseUsize(TrimEnd(TrimStart(" " + Decimal(n)))) == Some(n)
  {
    var digits := Decimal(n);
    assert (" " + digits)[1..] == digits;
    assert TrimStart(digits) == digits && TrimEnd(digits) == digits;
    DecimalRoundTrip(n);
  }

  lemma LowerConcat(a: string, b: string)
    ensures LowerCase(a + b) == LowerCase(a) + LowerCase(b)
  {
  }

  lemma DigitsStayLower(s: string)
    requires AllDigits(s)
    ensures LowerCase(s) == s
  {
  }

  // Letters lose their case, and nothing else changes.
  lemma LowerMeans(c: char)
    ensures forall i :: 0 <= i < 26 ==>
      Lower("ABCDEFGHIJKLMNOPQRSTUVWXYZ"[i]) == "abcdefghijklmnopqrstuvwxyz"[i]
    ensures c !in "ABCDEFGHIJKLMNOPQRSTUVWXYZ" ==> Lower(c) == c
    ensures IsSpace(' ') && IsSpace('\t') && IsSpace('\r') && IsSpace('\n')
  {
    var upper := "ABCDEFGHIJKLMNOPQRSTUVWXYZ";
    assert forall i :: 0 <= i < 26 ==> upper[i] as int == 'A' as int + i;
    assert forall i :: 0 <= i < 26 ==> "abcdefghijklmnopqrstuvwxyz"[i] as int == 'a' as int + i;
    if 'A' <= c <= 'Z' {
      assert upper[c as int - 'A' as int] == c;
    }
  }

  // ---------- what declares a length ----------

  predicate AllSpaces(s: string) {
    forall i :: 0 <= i < |s| ==> IsSpace(s[i])
  }

  // The line is the field, in any letter case.
  predicate IsField(line: string) {
    "content-length:" <= LowerCase(line)
  }

  // Name, white space, an optional plus sign, digits, white space.
  predicate IsDeclaration(line: string, left: string, sign: string, digits: string, right: string, n: u64) {
    && IsField(line) && line[15..] == left + sign + digits + right
    && AllSpaces(left) && AllSpaces(right) && (sign == "" || sign == "+")
    && digits != "" && AllDigits(digits) && ReadDecimal(digits) == n
  }

  ghost predicate DeclaresNumber(line: string, n: u64) {
    exists left, sign, digits, right :: IsDeclaration(line, left, sign, digits, right, n)
  }

  lemma {:induction false} TrimStartSkips(left: string, s: string)
    requires AllSpaces(left) && (s == "" || !IsSpace(s[0]))
    ensures TrimStart(left + s) == s
  {
    if left == "" {
      assert left + s == s;
    } else {
      TrimStartSkips(left[1..], s);
      assert (left + s)[1..] == left[1..] + s;
    }
  }

  lemma {:induction false} TrimEndSkips(s: string, right: string)
    requires AllSpaces(right) && (s == "" || !IsSpace(s[|s| - 1]))
    ensures TrimEnd(s + right) == s
  {
    if right == "" {
      assert s + right == s;
    } else {
      TrimEndSkips(s, right[..|right| - 1]);
      assert (s + right)[..|s + right| - 1] == s + right[..|right| - 1];
    }
  }

  lemma {:induction false} TrimStartIs(s: string) returns (left: string)
    ensures AllSpaces(left) && s == left + TrimStart(s)
  {
    left := "";
    if s != "" && IsSpace(s[0]) {
      left := TrimStartIs(s[1..]);
      left := [s[0]] + left;
      assert s == [s[0]] + s[1..];
    }
  }

  lemma {:induction false} TrimEndIs(s: string) returns (right: string)
    ensures AllSpaces(right) && s == TrimEnd(s) + right
  {
    right := "";
    if s != "" && IsSpace(s[|s| - 1]) {
      right := TrimEndIs(s[..|s| - 1]);
      right := right + [s[|s| - 1]];
      assert s == s[..|s| - 1] + [s[|s| - 1]];
    }
  }

  lemma NothingToLower(s: string)
    requires forall i :: 0 <= i < |s| ==> IsSpace(s[i]) || IsDigit(s[i]) || s[i] == '+'
    ensures LowerCase(s) == s
  {
  }

  predicate NumberText(s: string) {
    forall i :: 0 <= i < |s| ==> IsSpace(s[i]) || IsDigit(s[i]) || s[i] == '+'
  }

  lemma NothingWasLowered(s: string)
    requires NumberText(LowerCase(s))
    ensures LowerCase(s) == s
  {
    forall i | 0 <= i < |s| ensures LowerCase(s)[i] == s[i] {
      assert LowerCase(s)[i] == Lower(s[i]);
    }
  }

  lemma LowerAfterField(line: string)
    requires IsField(line)
    ensures |line| >= 15 && LowerCase(line)[15..] == LowerCase(line[15..])
  {
  }

  lemma ParsedText(sign: string, digits: string)
    requires (sign == "" || sign == "+") && digits != "" && AllDigits(digits) && ReadDecimal(digits) < TWO64
    ensures ParseUsize(sign + digits) == Some(ReadDecimal(digits))
  {
    hide ReadDecimal;
    if sign == "+" {
      assert (sign + digits)[1..] == digits;
    } else {
      assert sign + digits == digits && IsDigit(digits[0]);
    }
  }

  lemma DeclarationDeclares(line: string, left: string, sign: string, digits: string, right: string, n: u64)
    requires IsDeclaration(line, left, sign, digits, right, n)
    ensures DeclaredBy(line) == Some(n)
  {
    var text := sign + digits;
    LowerAfterField(line);
    NothingToLower(line[15..]);
    assert line[15..] == left + (text + right);
    hide LowerCase, IsSpace, ParseUsize, TrimStart, TrimEnd, ReadDecimal;
    NotSpaces(sign, digits);
    TrimStartSkips(left, text + right);
    TrimEndSkips(text, right);
    ParsedText(sign, digits);
  }

  lemma NotSpaces(sign: string, digits: string)
    requires (sign == "" || sign == "+") && digits != "" && AllDigits(digits)
    ensures !IsSpace((sign + digits)[0]) && !IsSpace((sign + digits)[|sign + digits| - 1])
  {
  }

  lemma PartsAreNumberText(left: string, text: string, right: string)
    requires AllSpaces(left) && AllSpaces(right) && NumberText(text)
    ensures NumberText(left + text + right)
  {
    hide IsSpace;
    var all := left + text + right;
    forall i | 0 <= i < |all| ensures IsSpace(all[i]) || IsDigit(all[i]) || all[i] == '+' {
      if i < |left| {
        assert all[i] == left[i];
      } else if i < |left| + |text| {
        assert all[i] == text[i - |left|];
      } else {
        assert all[i] == right[i - |left| - |text|];
      }
    }
  }

  lemma ParsedIsNumber(text: string, n: u64) returns (sign: string, digits: string)
    requires ParseUsize(text) == Some(n)
    ensures text == sign + digits && (sign == "" || sign == "+") && NumberText(text)
    ensures digits != "" && AllDigits(digits) && ReadDecimal(digits) == n
  {
    hide IsSpace, ReadDecimal;
    if text[0] == '+' {
      sign, digits := "+", text[1..];
      assert forall i :: 0 < i < |text| ==> text[i] == digits[i - 1];
    } else {
      sign, digits := "", text;
    }
  }

  lemma ParsedPart(line: string, n: u64)
    requires DeclaredBy(line) == Some(n) && n > 0
    ensures IsField(line) && |line| >= 15
    ensures ParseUsize(TrimEnd(TrimStart(LowerCase(line[15..])))) == Some(n)
  {
    hide ParseUsize, TrimEnd, TrimStart;
    LowerAfterField(line);
  }

  lemma DeclaredIsDeclaration(line: string, n: u64)
    requires DeclaredBy(line) == Some(n) && n > 0
    ensures DeclaresNumber(line, n)
  {
    hide ParseUsize, TrimEnd, TrimStart, LowerCase, DeclaredBy, NumberText, ReadDecimal, IsField, AllSpaces, AllDigits;
    ParsedPart(line, n);
    var v := LowerCase(line[15..]);
    var left := TrimStartIs(v);
    var right := TrimEndIs(TrimStart(v));
    var text := TrimEnd(TrimStart(v));
    var sign, digits := ParsedIsNumber(text, n);
    assert v == left + (text + right) == left + text + right;
    PartsAreNumberText(left, text, right);
    NothingWasLowered(line[15..]);
    assert v == left + sign + digits + right;
    assert IsDeclaration(line, left, sign, digits, right, n);
  }

  // A line declares a positive length exactly when it is the field with that number, however written, and
  // it declares none at all exactly when it is not the field.
  lemma DeclaredIff(line: string, n: u64)
    requires n > 0
    ensures DeclaredBy(line) == Some(n) <==> DeclaresNumber(line, n)
    ensures DeclaredBy(line) == None <==> !IsField(line)
  {
    if DeclaredBy(line) == Some(n) {
      DeclaredIsDeclaration(line, n);
    }
    if DeclaresNumber(line, n) {
      var left, sign, digits, right :| IsDeclaration(line, left, sign, digits, right, n);
      DeclarationDeclares(line, left, sign, digits, right, n);
    }
  }

  // The first line that is the field decides, wherever it stands.
  ghost predicate DeclaresLength(lines: seq<string>, n: u64) {
    || (exists i :: 0 <= i < |lines| && DeclaresNumber(lines[i], n) && forall k :: 0 <= k < i ==> !IsField(lines[k]))
    || (n == 0 && forall k :: 0 <= k < |lines| ==> !IsField(lines[k]))
  }

  lemma {:induction false} FirstFieldDecides(lines: seq<string>, i: nat)
    requires i < |lines| && IsField(lines[i]) && forall k :: 0 <= k < i ==> !IsField(lines[k])
    ensures DeclaredBy(lines[i]).Some? && FirstDeclared(lines) == DeclaredBy(lines[i]).value
  {
    hide LowerCase, ParseUsize;
    if i > 0 {
      assert !IsField(lines[0]);
      FirstFieldDecides(lines[1..], i - 1);
    }
  }

  lemma {:induction false} NoFieldDeclaresNothing(lines: seq<string>)
    requires forall k :: 0 <= k < |lines| ==> !IsField(lines[k])
    ensures FirstDeclared(lines) == 0
  {
    hide LowerCase, ParseUsize;
    if lines != [] {
      assert !IsField(lines[0]);
      NoFieldDeclaresNothing(lines[1..]);
    }
  }

  lemma LengthOfLines(lines: seq<string>, n: u64)
    requires DeclaresLength(lines, n)
    ensures FirstDeclared(lines) == n
  {
    hide DeclaredBy, FirstDeclared, IsField;
    if i :| 0 <= i < |lines| && DeclaresNumber(lines[i], n) && forall k :: 0 <= k < i ==> !IsField(lines[k]) {
      var left, sign, digits, right :| IsDeclaration(lines[i], left, sign, digits, right, n);
      DeclarationDeclares(lines[i], left, sign, digits, right, n);
      FirstFieldDecides(lines, i);
    } else {
      NoFieldDeclaresNothing(lines);
    }
  }

  // The plain case: a length field written in the usual way, anywhere among other header lines.
  lemma UsualFieldDeclares(lines: seq<string>, i: nat, n: u64)
    requires i < |lines| && lines[i] == "Content-Length: " + Decimal(n)
    requires forall k :: 0 <= k < i ==> !IsField(lines[k])
    ensures DeclaresLength(lines, n)
  {
    hide IsField, LowerCase, ReadDecimal;
    UsualFieldIsDeclaration(lines[i], n);
    assert DeclaresNumber(lines[i], n);
  }

  lemma UsualFieldIsDeclaration(line: string, n: u64)
    requires line == "Content-Length: " + Decimal(n)
    ensures IsDeclaration(line, " ", "", Decimal(n), "", n)
  {
    DecimalRoundTrip(n);
    LowerConcat("Content-Length: ", Decimal(n));
    assert LowerCase("Content-Length: ") == "content-length: ";
    assert line[15..] == " " + "" + Decimal(n) + "";
  }
}
