/** How the server gets a key out of a request target: the query parameter, percent-decoding and
    base64url-decoding, and that this brings any non-empty key through. */
module Query {
  import opened Bits
  import opened Contents
  import Base64Url

  const QUESTION: byte := '?' as int
  const AMPERSAND: byte := '&' as int
  const EQUALS: byte := '=' as int
  const PERCENT: byte := '%' as int
  const PLUS: byte := '+' as int
  const MINUS: byte := '-' as int
  const SPACE: byte := ' ' as int

  // ------------------------------------------------------------------- percent-decoding

  function HexDigit(b: byte): (d: int)
    ensures -1 <= d < 16
  {
    if 48 <= b <= 57 then b - 48 else if 65 <= b <= 70 then b - 55 else if 97 <= b <= 102 then b - 87 else -1
  }

  predicate IsSpace(b: byte) {
    b == SPACE || 9 <= b <= 13
  }

  predicate IsSign(b: byte) {
    b == PLUS || b == MINUS
  }

  predicate IsX(b: byte) {
    b == 88 || b == 120
  }

  /** Extracting a hexadecimal `int` from a stream of the two characters a and b: leading white space is
      skipped, a sign is accepted, extraction stops at the first other character, "0x" alone fails. */
  function ExtractHex(a: byte, b: byte): Option<int> {
    if IsSpace(a) then if HexDigit(b) >= 0 then Some(HexDigit(b)) else None
    else if IsSign(a) then
      if HexDigit(b) < 0 then None else Some(if a == MINUS then -HexDigit(b) else HexDigit(b))
    else if HexDigit(a) < 0 then None
    else if HexDigit(b) >= 0 then Some(16 * HexDigit(a) + HexDigit(b))
    else if HexDigit(a) == 0 && IsX(b) then None
    else Some(HexDigit(a))
  }

  /** What percent-decoding makes of a string. */
  function UrlDecoded(s: seq<byte>): seq<byte> {
    if s == [] then []
    else if s[0] == PERCENT && 2 < |s| then
      match ExtractHex(s[1], s[2])
      case Some(v) => [v % 0x100] + UrlDecoded(s[3..])
      case None => [PERCENT] + UrlDecoded(s[1..])
    else [if s[0] == PLUS then SPACE else s[0]] + UrlDecoded(s[1..])
  }

  /** One step of percent-decoding at position i. */
  lemma UrlStep(s: seq<byte>, i: nat)
    requires i < |s|
    ensures UrlDecoded(s[i..]) ==
      if s[i] == PERCENT && i + 2 < |s| then
        match ExtractHex(s[i + 1], s[i + 2])
        case Some(v) => [v % 0x100] + UrlDecoded(s[i + 3..])
        case None => [PERCENT] + UrlDecoded(s[i + 1..])
      else [if s[i] == PLUS then SPACE else s[i]] + UrlDecoded(s[i + 1..])
  {
    var t := s[i..];
    assert t[0] == s[i] && t[1..] == s[i + 1..];
    if i + 2 < |s| { assert t[1] == s[i + 1] && t[2] == s[i + 2] && t[3..] == s[i + 3..]; }
  }

  method UrlDecode(s: seq<byte>) returns (result: seq<byte>)
    ensures result == UrlDecoded(s)
  {
    result := [];
    var i := 0;
    while i < |s|
      invariant 0 <= i <= |s| && UrlDecoded(s) == result + UrlDecoded(s[i..])
    {
      UrlStep(s, i);
      var c := s[i];
      if s[i] == PERCENT && i + 2 < |s| {
        var value := ExtractHex(s[i + 1], s[i + 2]);
        if value.Some? {
          c := value.value % 0x100;
          i := i + 2;
        }
      } else if s[i] == PLUS {
        c := SPACE;
      }
      i := i + 1;
      Assoc(result, [c], UrlDecoded(s[i..]));
      result := result + [c];
    }
    assert s[i..] == [];
  }

  /** No plus sign, and no percent sign that begins something like an escape. */
  predicate Harmless(s: seq<byte>) {
    && PLUS !in s
    && forall i :: 0 <= i < |s| && s[i] == PERCENT && i + 2 < |s| ==>
         HexDigit(s[i + 1]) < 0 && !IsSpace(s[i + 1]) && !IsSign(s[i + 1])
  }

  /** Such strings are left alone. */
  lemma {:induction false} UrlPlain(s: seq<byte>)
    requires Harmless(s)
    ensures UrlDecoded(s) == s
  {
    if s != [] {
      assert forall i :: 0 <= i < |s| - 1 ==> s[1..][i] == s[i + 1];
      UrlPlain(s[1..]);
      assert s == [s[0]] + s[1..];
    }
  }

  const UPPER_HEX: string := "0123456789ABCDEF"
  const LOWER_HEX: string := "0123456789abcdef"

  function HexChar(d: nat, upper: bool): byte
    requires d < 16
  {
    if upper then UPPER_HEX[d] as int else LOWER_HEX[d] as int
  }

  lemma HexRoundTrip(d: nat, upper: bool)
    requires d < 16
    ensures HexDigit(HexChar(d, upper)) == d
  {}

  /** Escapes that are not two digits: one digit alone counts, also behind white space or a sign; a zero before
      an x does not. */
  lemma OddEscapes(d: int, upper: bool, other: byte)
    requires 0 <= d < 16 && HexDigit(other) < 0 && other != 'x' as int && other != 'X' as int
    ensures var digit := HexChar(d, upper);
      && ExtractHex(' ' as int, digit) == Some(d) && ExtractHex('+' as int, digit) == Some(d)
      && ExtractHex('-' as int, digit) == Some(-d) && ExtractHex(digit, other) == Some(d)
    ensures ExtractHex('0' as int, 'x' as int) == ExtractHex('0' as int, 'X' as int) == None
    ensures other != ' ' as int && !(9 <= other <= 13) && other != '+' as int && other != '-' as int ==>
      ExtractHex(other, HexChar(d, upper)) == None
  {
    HexRoundTrip(d, upper);
    DigitIsNoSign(HexChar(d, upper));
  }

  lemma DigitIsNoSign(b: byte)
    requires HexDigit(b) >= 0
    ensures !IsSpace(b) && !IsSign(b)
  {}

  /** And no other character is a digit. */
  lemma HexDigitOnly(b: byte)
    requires HexDigit(b) >= 0
    ensures HexChar(HexDigit(b), true) == b || HexChar(HexDigit(b), false) == b
  {}

  /** The ways to write a byte in a query: as it is, as an escape with digits of either case, or, for a
      space, as a plus sign. */
  datatype Spelling = AsIs | Escape(upperHigh: bool, upperLow: bool) | AsPlus

  predicate CanSpell(b: byte, how: Spelling) {
    match how
    case AsIs => b != PERCENT && b != PLUS
    case Escape(_, _) => true
    case AsPlus => b == ' ' as int
  }

  function SpelledByte(b: byte, how: Spelling): seq<byte> {
    match how
    case AsIs => [b]
    case Escape(upperHigh, upperLow) => ['%' as int, HexChar(b / 16, upperHigh), HexChar(b % 16, upperLow)]
    case AsPlus => ['+' as int]
  }

  function SpelledOut(s: seq<byte>, how: seq<Spelling>): seq<byte>
    requires |how| == |s|
  {
    if s == [] then [] else SpelledByte(s[0], how[0]) + SpelledOut(s[1..], how[1..])
  }

  /** Percent-decoding gives back any bytes, however each of them is written. */
  lemma {:induction false} PercentRoundTrip(s: seq<byte>, how: seq<Spelling>)
    requires |how| == |s| && forall i :: 0 <= i < |s| ==> CanSpell(s[i], how[i])
    ensures UrlDecoded(SpelledOut(s, how)) == s
  {
    if s != [] {
      var rest := SpelledOut(s[1..], how[1..]);
      PercentRoundTrip(s[1..], how[1..]);
      DecodeSpelled(s[0], how[0], rest);
      assert s == [s[0]] + s[1..];
    }
  }

  lemma DecodeSpelled(b: byte, how: Spelling, rest: seq<byte>)
    requires CanSpell(b, how)
    ensures UrlDecoded(SpelledByte(b, how) + rest) == [b] + UrlDecoded(rest)
  {
    var e := SpelledByte(b, how) + rest;
    match how
    case Escape(upperHigh, upperLow) =>
      HexRoundTrip(b / 16, upperHigh);
      HexRoundTrip(b % 16, upperLow);
      assert e[3..] == rest;
      EscapeValue(e[1], e[2], b);
    case _ => assert e[1..] == rest;
  }

  lemma EscapeValue(a: byte, b: byte, v: byte)
    requires HexDigit(a) == v / 16 && HexDigit(b) == v % 16
    ensures ExtractHex(a, b) == Some(v)
  {}

  // ------------------------------------------------------------------- query parameters

  /** The index of the first `b` at or after `from`, or the length. */
  method FindByte(s: seq<byte>, b: byte, from: nat) returns (i: nat)
    requires from <= |s|
    ensures from <= i <= |s| && (forall k :: from <= k < i ==> s[k] != b) && (i < |s| ==> s[i] == b)
  {
    i := from;
    while i < |s| && s[i] != b
      invariant from <= i <= |s| && forall k :: from <= k < i ==> s[k] != b
    {
      i := i + 1;
    }
  }

  predicate StartsWith(s: seq<byte>, p: seq<byte>) {
    |p| <= |s| && s[..|p|] == p
  }

  /** The pieces of a query between ampersands. */
  function Join(pairs: seq<seq<byte>>): seq<byte> {
    if pairs == [] then [] else if |pairs| == 1 then pairs[0] else pairs[0] + [AMPERSAND] + Join(pairs[1..])
  }

  predicate NoAmpersands(pairs: seq<seq<byte>>) {
    forall i :: 0 <= i < |pairs| ==> AMPERSAND !in pairs[i]
  }

  /** What follows the name and equals sign in the first piece that begins with them. */
  function FirstValue(pairs: seq<seq<byte>>, search: seq<byte>): seq<byte> {
    if pairs == [] then []
    else if StartsWith(pairs[0], search) then pairs[0][|search|..]
    else FirstValue(pairs[1..], search)
  }

  lemma FirstIndex(s: seq<byte>, b: byte) returns (i: nat)
    requires b in s
    ensures i < |s| && s[i] == b && b !in s[..i]
  {
    i := 0;
    while s[i] != b
      invariant i < |s| && b !in s[..i] && b in s[i..]
      decreases |s| - i
    {
      i := i + 1;
    }
  }

  /** Every query is pieces joined by ampersands. */
  lemma {:induction false} Pieces(query: seq<byte>) returns (pairs: seq<seq<byte>>)
    ensures pairs != [] && NoAmpersands(pairs) && Join(pairs) == query
    decreases |query|
  {
    if AMPERSAND !in query {
      pairs := [query];
    } else {
      var i := FirstIndex(query, AMPERSAND);
      var rest := Pieces(query[i + 1..]);
      pairs := [query[..i]] + rest;
      assert pairs[1..] == rest && query == query[..i] + [AMPERSAND] + query[i + 1..];
    }
  }

  predicate Parses(target: seq<byte>, path: seq<byte>, pairs: seq<seq<byte>>) {
    && QUESTION !in path && NoAmpersands(pairs)
    && (target == path + [QUESTION] + Join(pairs) || (pairs == [] && target == path))
  }

  /** Every target has a path and pieces, so ExtractQueryParam is specified for all of them. */
  lemma EveryTarget(target: seq<byte>) returns (path: seq<byte>, pairs: seq<seq<byte>>)
    ensures Parses(target, path, pairs)
  {
    if QUESTION !in target {
      path, pairs := target, [];
    } else {
      var i := FirstIndex(target, QUESTION);
      path := target[..i];
      pairs := Pieces(target[i + 1..]);
      assert target == path + [QUESTION] + target[i + 1..];
    }
  }

  /** The value of a parameter. For a target whose first question mark is followed by `pairs` joined by
      ampersands, that is the first value with that name; without a question mark there is none. */
  method ExtractQueryParam(target: seq<byte>, param: seq<byte>, ghost path: seq<byte>, ghost pairs: seq<seq<byte>>)
    returns (value: seq<byte>)
    requires Parses(target, path, pairs)
    ensures value == FirstValue(pairs, param + [EQUALS])
  {
    var queryPos := FindByte(target, QUESTION, 0);
    FirstByte(target, QUESTION, path, Join(pairs), queryPos);
    if queryPos == |target| {
      return [];
    }
    var query := target[queryPos + 1..];
    assert query == Join(pairs);
    var search := param + [EQUALS];
    var pos := 0;
    ghost var left := pairs;
    while pos < |query|
      invariant 0 <= pos <= |query| && NoAmpersands(left) && query[pos..] == Join(left)
      invariant FirstValue(pairs, search) == FirstValue(left, search)
      decreases |query| - pos
    {
      var amp := FindByte(query, AMPERSAND, pos);
      FirstPiece(query, pos, amp, left);
      var pair := query[pos..amp];
      if StartsWith(pair, search) {
        return pair[|search|..];
      }
      left := left[1..];
      if amp == |query| {
        break;
      }
      pos := amp + 1;
    }
    NothingLeft(left, search);
    return [];
  }

  /** The first `b` of a string is at the end of a part without it. */
  lemma FirstByte(s: seq<byte>, b: byte, part: seq<byte>, rest: seq<byte>, i: nat)
    requires b !in part && i <= |s| && (s == part + [b] + rest || s == part)
    requires (forall k :: 0 <= k < i ==> s[k] != b) && (i < |s| ==> s[i] == b)
    ensures i == |part| && (i < |s| ==> s[i + 1..] == rest)
  {
    assert forall k :: 0 <= k < |part| ==> s[k] == part[k];
    assert |part| < |s| ==> s[|part|] == b;
  }

  lemma PieceOf(s: seq<byte>, left: seq<seq<byte>>, i: nat)
    requires s != [] && s == Join(left) && NoAmpersands(left) && i <= |s|
    requires (forall k :: 0 <= k < i ==> s[k] != AMPERSAND) && (i < |s| ==> s[i] == AMPERSAND)
    ensures left != [] && s[..i] == left[0]
    ensures if i == |s| then |left| == 1 else |left| > 1 && s[i + 1..] == Join(left[1..])
  {
    if |left| == 1 {
      FirstByte(s, AMPERSAND, left[0], [], i);
    } else {
      FirstByte(s, AMPERSAND, left[0], Join(left[1..]), i);
    }
  }

  /** The first piece of what is left of the query. */
  lemma FirstPiece(query: seq<byte>, pos: nat, amp: nat, left: seq<seq<byte>>)
    requires pos < |query| && pos <= amp <= |query| && query[pos..] == Join(left) && NoAmpersands(left)
    requires (forall k :: pos <= k < amp ==> query[k] != AMPERSAND) && (amp < |query| ==> query[amp] == AMPERSAND)
    ensures left != [] && query[pos..amp] == left[0]
    ensures if amp == |query| then |left| == 1 else |left| > 1 && query[amp + 1..] == Join(left[1..])
  {
    var s, i := query[pos..], amp - pos;
    forall k | 0 <= k < i
      ensures s[k] != AMPERSAND
    {
      assert s[k] == query[pos + k];
    }
    Shifted(query, pos, amp);
    PieceOf(s, left, i);
  }

  lemma Shifted(s: seq<byte>, pos: nat, amp: nat)
    requires pos <= amp <= |s|
    ensures |s[pos..]| == |s| - pos && s[pos..amp] == s[pos..][..amp - pos]
    ensures amp < |s| ==> s[amp] == s[pos..][amp - pos] && s[amp + 1..] == s[pos..][amp - pos + 1..]
  {}

  lemma NothingLeft(left: seq<seq<byte>>, search: seq<byte>)
    requires search != [] && |Join(left)| == 0
    ensures FirstValue(left, search) == []
  {
    if left != [] { assert left[0] == [] && |left| == 1; }
  }

  /** Pieces that are other parameters. */
  predicate OtherParams(pairs: seq<seq<byte>>, search: seq<byte>) {
    forall i :: 0 <= i < |pairs| ==> !StartsWith(pairs[i], search)
  }

  /** Of several values of a parameter the first counts. */
  lemma {:induction false} FirstValueAfter(before: seq<seq<byte>>, search: seq<byte>, v: seq<byte>,
                                           after: seq<seq<byte>>)
    requires OtherParams(before, search)
    ensures FirstValue(before + [search + v] + after, search) == v
  {
    var pairs := before + [search + v] + after;
    if before == [] {
      assert pairs[0] == search + v && pairs[0][..|search|] == search && pairs[0][|search|..] == v;
    } else {
      assert pairs[0] == before[0] && pairs[1..] == before[1..] + [search + v] + after;
      FirstValueAfter(before[1..], search, v, after);
    }
  }

  /** A parameter that does not occur has no value. */
  lemma {:induction false} NoValue(pairs: seq<seq<byte>>, search: seq<byte>)
    requires OtherParams(pairs, search)
    ensures FirstValue(pairs, search) == []
  {
    if pairs != [] { NoValue(pairs[1..], search); }
  }

  // ----------------------------------------------------------------------- key transport

  const KEY: seq<byte> := ['k' as int, 'e' as int, 'y' as int]

  /** The encoding uses none of the characters that mean something in a query. */
  lemma EncodedIsPlain(k: seq<byte>)
    ensures var e := Base64Url.Encoded(k); QUESTION !in e && AMPERSAND !in e && PERCENT !in e && PLUS !in e
    ensures k != [] ==> Base64Url.Encoded(k) != []
  {}

  lemma PiecesPlain(before: seq<seq<byte>>, piece: seq<byte>, after: seq<seq<byte>>)
    requires NoAmpersands(before + after) && AMPERSAND !in piece
    ensures NoAmpersands(before + [piece] + after)
  {
    var all := before + [piece] + after;
    forall i | 0 <= i < |all| && i != |before|
      ensures AMPERSAND !in all[i]
    {
      assert all[i] == (before + after)[if i < |before| then i else i - 1];
    }
  }

  /** A client sends `path?...&key=<base64url of k>&...`; what the server looks up is k. For the empty key
      the parameter is empty, which the server answers with an error. */
  method Transport(table: array<int>, path: seq<byte>, before: seq<seq<byte>>, after: seq<seq<byte>>, k: seq<byte>)
    returns (param: seq<byte>, key: seq<byte>)
    requires table.Length == 256 && forall b: byte :: table[b] == Base64Url.Digit(b)
    requires QUESTION !in path && OtherParams(before, KEY + [EQUALS]) && NoAmpersands(before + after)
    ensures param == [] <==> k == []
    ensures key == k
  {
    var encoded := Base64Url.Encode(k);
    EncodedIsPlain(k);
    var pairs := before + [KEY + [EQUALS] + encoded] + after;
    FirstValueAfter(before, KEY + [EQUALS], encoded, after);
    PiecesPlain(before, KEY + [EQUALS] + encoded, after);
    param := ExtractQueryParam(path + [QUESTION] + Join(pairs), KEY, path, pairs);
    UrlPlain(param);
    var plain := UrlDecode(param);
    Base64Url.RoundTrip(k, []);
    assert encoded + [] == encoded;
    key := Base64Url.Decode(table, plain);
  }
}
