/** The ASCII-only character classification that include/ctype.h supplies on
    AROS. Every predicate takes a C `int`; the relations between them, which
    the header writes as independent range tests, are stated as contracts. */
module CType {

  function IsUpper(c: int): (r: bool)
    ensures r <==> 65 <= c <= 90
  {
    'A' as int <= c <= 'Z' as int
  }

  function IsLower(c: int): (r: bool)
    ensures r <==> 97 <= c <= 122
  {
    'a' as int <= c <= 'z' as int
  }

  function IsAlpha(c: int): (r: bool)
    ensures r <==> IsUpper(c) || IsLower(c)
  {
    ('A' as int <= c <= 'Z' as int) || ('a' as int <= c <= 'z' as int)
  }

  function IsDigit(c: int): (r: bool)
    ensures r <==> 48 <= c <= 57
  {
    '0' as int <= c <= '9' as int
  }

  function IsAlnum(c: int): (r: bool)
    ensures r <==> IsAlpha(c) || IsDigit(c)
  {
    ('0' as int <= c <= '9' as int) || ('A' as int <= c <= 'Z' as int) || ('a' as int <= c <= 'z' as int)
  }

  function IsXDigit(c: int): (r: bool)
    ensures r <==> IsDigit(c) || 'a' as int <= ToLower(c) <= 'f' as int
    ensures r ==> IsAlnum(c)
  {
    ('0' as int <= c <= '9' as int) || ('A' as int <= c <= 'F' as int) || ('a' as int <= c <= 'f' as int)
  }

  /** Tab, line feed, vertical tab, form feed, carriage return and space. */
  function IsSpace(c: int): (r: bool)
    ensures r <==> c == 9 || c == 10 || c == 11 || c == 12 || c == 13 || c == 32
  {
    ('\t' as int <= c <= '\r' as int) || c == ' ' as int
  }

  function IsPrint(c: int): (r: bool)
    ensures r <==> 0 <= c <= 127 && !(0 <= c <= 31) && c != 127
  {
    ' ' as int <= c <= '~' as int
  }

  function IsGraph(c: int): (r: bool)
    ensures r <==> IsPrint(c) && c != ' ' as int
  {
    '!' as int <= c <= '~' as int
  }

  function IsBlank(c: int): (r: bool)
    ensures r ==> IsSpace(c)
    ensures r <==> IsSpace(c) && !(10 <= c <= 13)
  {
    c == '\t' as int || c == ' ' as int
  }

  /** The control characters: exactly the ASCII codes that are not printable. */
  function IsCntrl(c: int): (r: bool)
    ensures r <==> 0 <= c <= 127 && !IsPrint(c)
  {
    (0 <= c <= 0x1F) || c == 0x7F
  }

  /** The punctuation characters: graphic but neither letter nor digit. */
  function IsPunct(c: int): (r: bool)
    ensures r <==> IsGraph(c) && !IsAlnum(c)
  {
    ('!' as int <= c <= '/' as int) || (':' as int <= c <= '@' as int) ||
    ('[' as int <= c <= '`' as int) || ('{' as int <= c <= '~' as int)
  }

  function ToUpper(c: int): (r: int)
    ensures IsLower(c) ==> IsUpper(r) && r == c - 32
    ensures !IsLower(c) ==> r == c
  {
    if 'a' as int <= c <= 'z' as int then c - ('a' as int - 'A' as int) else c
  }

  function ToLower(c: int): (r: int)
    ensures IsUpper(c) ==> IsLower(r) && r == c + 32
    ensures !IsUpper(c) ==> r == c
  {
    if 'A' as int <= c <= 'Z' as int then c + ('a' as int - 'A' as int) else c
  }

  /** ToLower undoes ToUpper on lower-case letters and the other way round. */
  lemma {:induction false} CaseRoundTrip(c: int)
    ensures IsLower(c) ==> ToLower(ToUpper(c)) == c
    ensures IsUpper(c) ==> ToUpper(ToLower(c)) == c
    ensures IsAlpha(c) <==> ToUpper(c) != ToLower(c)
  {
  }

  /** The value of a C int given by its 32 bits, in two's complement. */
  function Signed(bits: bv32): int {
    if bits < 0x8000_0000 then bits as int else bits as int - 0x1_0000_0000
  }

  /** `(c & ~0x7F) == 0`, on the bits of `c`: no bit above the low seven is
      set, which is to say that `c` is between 0 and 127. */
  function IsAscii(c: bv32): (r: bool)
    ensures r <==> c <= 0x7F
    ensures r <==> 0 <= Signed(c) <= 127
  {
    c & !0x7F == 0
  }

  /** `c & 0x7F`: the low seven bits, the remainder of `c` modulo 128. */
  function ToAscii(c: bv32): (r: bv32)
    ensures r <= 0x7F && IsAscii(r)
    ensures IsAscii(c) ==> r == c
    ensures r == c % 128
  {
    c & 0x7F
  }
}
