/**
makeSafeName of src/aotcompile.cpp: unsafe bytes of a symbol name are replaced by an
abbreviation or two hexadecimal digits, followed by a dot.  The comment there promises that
this is reversible; the proof is a decoder that reads the mangled name from the right, where
the escape codes form a suffix code and a dot can only end an escape.
 */
module NameMangling {
  import opened Basics

  /** A byte of a name, written as a character with a code below 256. */
  type NameChar = c: char | c as int < 256

  predicate IsSafe(c: NameChar) {
    || '0' <= c <= '9'
    || 'A' <= c <= 'Z'
    || 'a' <= c <= 'z'
    || c == '_' || c == '$'
    || 128 <= c as int < 255
  }

  /** An escape code: an abbreviation of two or three letters, or two hexadecimal digits. */
  datatype Code = Two(x: NameChar, y: NameChar) | Three(x: NameChar, y: NameChar, z: NameChar)

  function CommonName(c: NameChar): Option<Code> {
    match c
    case ' ' => Some(Two('S', 'P'))
    case '!' => Some(Three('N', 'O', 'T'))
    case '"' => Some(Three('D', 'Q', 'T'))
    case '#' => Some(Two('Y', 'Y'))
    case '%' => Some(Three('R', 'E', 'M'))
    case '&' => Some(Three('A', 'N', 'D'))
    case '\'' => Some(Three('S', 'Q', 'T'))
    case '(' => Some(Three('L', 'P', 'R'))
    case ')' => Some(Three('R', 'P', 'R'))
    case '*' => Some(Three('M', 'U', 'L'))
    case '+' => Some(Three('S', 'U', 'M'))
    case '-' => Some(Three('S', 'U', 'B'))
    case '.' => Some(Three('D', 'O', 'T'))
    case '/' => Some(Three('D', 'I', 'V'))
    case ':' => Some(Three('C', 'O', 'L'))
    case '<' => Some(Two('L', 'T'))
    case '=' => Some(Two('E', 'Q'))
    case '>' => Some(Two('G', 'T'))
    case '?' => Some(Two('Q', 'Q'))
    case '@' => Some(Two('A', 'T'))
    case '[' => Some(Three('L', 'B', 'R'))
    case '\\' => Some(Three('R', 'D', 'V'))
    case ']' => Some(Three('R', 'B', 'R'))
    case '^' => Some(Three('P', 'O', 'W'))
    case '`' => Some(Three('T', 'I', 'C'))
    case '{' => Some(Three('L', 'C', 'R'))
    case '|' => Some(Two('O', 'R'))
    case '}' => Some(Three('R', 'C', 'R'))
    case '~' => Some(Three('T', 'L', 'D'))
    case '\U{7f}' => Some(Three('D', 'E', 'L'))
    case _ => None
  }

  function HexChar(d: nat): NameChar
    requires d < 16
  {
    if d < 10 then '0' + d as char else 'A' + (d - 10) as char
  }

  function EscapeCode(c: NameChar): Code {
    match CommonName(c)
    case Some(code) => code
    case None => Two(HexChar(c as int / 16), HexChar(c as int % 16))
  }

  function Letters(code: Code): seq<NameChar> {
    match code
    case Two(x, y) => [x, y]
    case Three(x, y, z) => [x, y, z]
  }

  /** What one byte of the name contributes. */
  function Mangled(c: NameChar): seq<NameChar> {
    if IsSafe(c) then [c] else Letters(EscapeCode(c)) + ['.']
  }

  function Mangle(name: seq<NameChar>): seq<NameChar> {
    if |name| == 0 then [] else Mangle(name[..|name| - 1]) + Mangled(name[|name| - 1])
  }

  // ---------------------------------------------------------------------------
  // The decoder.
  // ---------------------------------------------------------------------------

  function HexValue(c: NameChar): Option<nat> {
    if '0' <= c <= '9' then Some(c as int - '0' as int)
    else if 'A' <= c <= 'F' then Some(c as int - 'A' as int + 10)
    else None
  }

  function FromHex(x: NameChar, y: NameChar): Option<NameChar> {
    if HexValue(x).Some? && HexValue(y).Some?
    then Some((HexValue(x).value * 16 + HexValue(y).value) as char)
    else None
  }

  /** The byte that a two-letter code stands for. */
  function FromTwo(x: NameChar, y: NameChar): Option<NameChar> {
    match (x, y)
    case ('S', 'P') => Some(' ')
    case ('Y', 'Y') => Some('#')
    case ('L', 'T') => Some('<')
    case ('E', 'Q') => Some('=')
    case ('G', 'T') => Some('>')
    case ('Q', 'Q') => Some('?')
    case ('A', 'T') => Some('@')
    case ('O', 'R') => Some('|')
    case _ => FromHex(x, y)
  }

  function FromThree(x: NameChar, y: NameChar, z: NameChar): Option<NameChar> {
    match (x, y, z)
    case ('N', 'O', 'T') => Some('!')
    case ('D', 'Q', 'T') => Some('"')
    case ('R', 'E', 'M') => Some('%')
    case ('A', 'N', 'D') => Some('&')
    case ('S', 'Q', 'T') => Some('\'')
    case ('L', 'P', 'R') => Some('(')
    case ('R', 'P', 'R') => Some(')')
    case ('M', 'U', 'L') => Some('*')
    case ('S', 'U', 'M') => Some('+')
    case ('S', 'U', 'B') => Some('-')
    case ('D', 'O', 'T') => Some('.')
    case ('D', 'I', 'V') => Some('/')
    case ('C', 'O', 'L') => Some(':')
    case ('L', 'B', 'R') => Some('[')
    case ('R', 'D', 'V') => Some('\\')
    case ('R', 'B', 'R') => Some(']')
    case ('P', 'O', 'W') => Some('^')
    case ('T', 'I', 'C') => Some('`')
    case ('L', 'C', 'R') => Some('{')
    case ('R', 'C', 'R') => Some('}')
    case ('T', 'L', 'D') => Some('~')
    case ('D', 'E', 'L') => Some('\U{7f}')
    case _ => None
  }

  /** Read a mangled name from the right; nothing if it is not a mangled name. */
  function Unmangle(t: seq<NameChar>): Option<seq<NameChar>> {
    var n := |t|;
    if n == 0 then Some([])
    else if t[n - 1] != '.' then Prepended(Unmangle(t[..n - 1]), Some(t[n - 1]))
    else if n >= 3 && FromTwo(t[n - 3], t[n - 2]).Some? then
      Prepended(Unmangle(t[..n - 3]), FromTwo(t[n - 3], t[n - 2]))
    else if n >= 4 then
      Prepended(Unmangle(t[..n - 4]), FromThree(t[n - 4], t[n - 3], t[n - 2]))
    else None
  }

  function Prepended(front: Option<seq<NameChar>>, last: Option<NameChar>): Option<seq<NameChar>> {
    if front.Some? && last.Some? then Some(front.value + [last.value]) else None
  }

  /** What makes an escape code decodable from the right: no shorter code is its suffix. */
  predicate Decodes(code: Code, c: NameChar) {
    match code
    case Two(x, y) => FromTwo(x, y) == Some(c)
    case Three(x, y, z) => FromTwo(y, z) == None && FromThree(x, y, z) == Some(c)
  }

  lemma LowCodeDecodes(c: NameChar)
    requires CommonName(c).Some? && c < ':'
    ensures Decodes(CommonName(c).value, c)
  {
  }

  lemma HighCodeDecodes(c: NameChar)
    requires CommonName(c).Some? && c >= ':'
    ensures Decodes(CommonName(c).value, c)
  {
  }

  /** Escape codes decode to the byte they stand for, and none is a suffix of another. */
  lemma CodeDecodes(c: NameChar)
    ensures Decodes(EscapeCode(c), c)
  {
    hide FromThree, HexChar;
    if CommonName(c) == None {
      HexDecodes(c);
    } else if c < ':' {
      LowCodeDecodes(c);
    } else {
      HighCodeDecodes(c);
    }
  }

  lemma HexDecodes(c: NameChar)
    ensures FromHex(HexChar(c as int / 16), HexChar(c as int % 16)) == Some(c)
    ensures FromTwo(HexChar(c as int / 16), HexChar(c as int % 16)) == Some(c)
  {
    assert c as int / 16 * 16 + c as int % 16 == c as int;
  }

  /** No code contains a dot, so a dot in a mangled name ends an escape. */
  lemma CodeLettersSafe(c: NameChar)
    ensures forall i :: 0 <= i < |Letters(EscapeCode(c))| ==> IsSafe(Letters(EscapeCode(c))[i])
  {
  }

  lemma UnmangleStep(t: seq<NameChar>, c: NameChar)
    ensures Unmangle(t + Mangled(c)) == Prepended(Unmangle(t), Some(c))
  {
    var u := t + Mangled(c);
    if IsSafe(c) {
      assert u[..|t|] == t;
    } else {
      CodeDecodes(c);
      match EscapeCode(c)
      case Two(x, y) =>
        assert u == t + [x, y, '.'];
        assert u[..|t|] == t;
      case Three(x, y, z) =>
        assert u == t + [x, y, z, '.'];
        assert u[..|t|] == t;
    }
  }

  lemma PrependedSome(front: seq<NameChar>, last: NameChar)
    ensures Prepended(Some(front), Some(last)) == Some(front + [last])
  {
  }

  /** Mangling is reversible on every byte string. */
  lemma {:induction false} UnmangleMangle(name: seq<NameChar>)
    ensures Unmangle(Mangle(name)) == Some(name)
  {
    hide Mangled, Prepended;
    if |name| == 0 {
      assert Mangle(name) == [];
    } else {
      var n := |name| - 1;
      UnmangleMangle(name[..n]);
      hide Unmangle;
      PrependedSome(name[..n], name[n]);
      UnmangleStep(Mangle(name[..n]), name[n]);
      assert name == name[..n] + [name[n]];
    }
  }

  lemma MangleInjective(a: seq<NameChar>, b: seq<NameChar>)
    requires Mangle(a) == Mangle(b)
    ensures a == b
  {
    UnmangleMangle(a);
    UnmangleMangle(b);
  }

  /** Only safe bytes and dots remain. */
  lemma {:induction false} MangleIsSafe(name: seq<NameChar>)
    ensures forall i :: 0 <= i < |Mangle(name)| ==> IsSafe(Mangle(name)[i]) || Mangle(name)[i] == '.'
  {
    if |name| > 0 {
      MangleIsSafe(name[..|name| - 1]);
      CodeLettersSafe(name[|name| - 1]);
    }
  }

  /** The length tells whether anything was replaced: the test that decides on the renaming. */
  lemma {:induction false} SameLengthMeansUnchanged(name: seq<NameChar>)
    ensures |Mangle(name)| >= |name|
    ensures |Mangle(name)| == |name| <==> Mangle(name) == name
    ensures |Mangle(name)| == |name| <==> forall i :: 0 <= i < |name| ==> IsSafe(name[i])
  {
    if |name| > 0 {
      var n := |name| - 1;
      SameLengthMeansUnchanged(name[..n]);
      assert name == name[..n] + [name[n]];
      assert forall i :: 0 <= i < n ==> name[i] == name[..n][i];
    }
  }

  // ---------------------------------------------------------------------------
  // What the names look like.
  // ---------------------------------------------------------------------------

  lemma MangleOne(c: NameChar)
    ensures Mangle([c]) == Mangled(c)
  {
    assert [c][..0] == [];
    assert Mangle([]) == [];
  }

  lemma {:induction false} MangleAppend(a: seq<NameChar>, b: seq<NameChar>)
    ensures Mangle(a + b) == Mangle(a) + Mangle(b)
  {
    hide Mangled;
    if |b| == 0 {
      assert a + b == a;
    } else {
      var n := |b| - 1;
      assert (a + b)[..|a| + n] == a + b[..n];
      MangleAppend(a, b[..n]);
    }
  }

  /** A name stays as it is exactly if it has only digits, letters, `_`, `$` and bytes from 128 to 254. */
  lemma UnchangedIff(name: seq<NameChar>)
    ensures Mangle(name) == name <==>
      forall i :: 0 <= i < |name| ==>
        var c := name[i] as int;
        48 <= c <= 57 || 65 <= c <= 90 || 97 <= c <= 122 || c == 95 || c == 36 || 128 <= c <= 254
  {
    SameLengthMeansUnchanged(name);
  }

  lemma TwoLetters(c: NameChar, x: NameChar, y: NameChar)
    requires !IsSafe(c) && CommonName(c) == Some(Two(x, y))
    ensures Mangle([c]) == [x, y, '.']
  {
    hide CommonName, IsSafe;
    MangleOne(c);
  }

  lemma ThreeLetters(c: NameChar, x: NameChar, y: NameChar, z: NameChar)
    requires !IsSafe(c) && CommonName(c) == Some(Three(x, y, z))
    ensures Mangle([c]) == [x, y, z, '.']
  {
    hide CommonName, IsSafe;
    MangleOne(c);
  }

  /** The abbreviations of the table: blank to apostrophe. */
  lemma PunctuationNames()
    ensures Mangle(" ") == "SP." && Mangle("!") == "NOT." && Mangle("\"") == "DQT." && Mangle("#") == "YY."
    ensures Mangle("%") == "REM." && Mangle("&") == "AND." && Mangle("'") == "SQT."
  {
    hide Mangle;
    TwoLetters(' ', 'S', 'P');
    ThreeLetters('!', 'N', 'O', 'T');
    ThreeLetters('"', 'D', 'Q', 'T');
    TwoLetters('#', 'Y', 'Y');
    ThreeLetters('%', 'R', 'E', 'M');
    ThreeLetters('&', 'A', 'N', 'D');
    ThreeLetters('\'', 'S', 'Q', 'T');
  }

  /** Parentheses and operators. */
  lemma OperatorNames()
    ensures Mangle("(") == "LPR." && Mangle(")") == "RPR." && Mangle("*") == "MUL." && Mangle("+") == "SUM."
    ensures Mangle("-") == "SUB." && Mangle(".") == "DOT." && Mangle("/") == "DIV."
  {
    hide Mangle;
    ThreeLetters('(', 'L', 'P', 'R');
    ThreeLetters(')', 'R', 'P', 'R');
    ThreeLetters('*', 'M', 'U', 'L');
    ThreeLetters('+', 'S', 'U', 'M');
    ThreeLetters('-', 'S', 'U', 'B');
    ThreeLetters('.', 'D', 'O', 'T');
    ThreeLetters('/', 'D', 'I', 'V');
  }

  /** Colon to at sign. */
  lemma RelationNames()
    ensures Mangle(":") == "COL." && Mangle("<") == "LT." && Mangle("=") == "EQ." && Mangle(">") == "GT."
    ensures Mangle("?") == "QQ." && Mangle("@") == "AT."
  {
    hide Mangle;
    ThreeLetters(':', 'C', 'O', 'L');
    TwoLetters('<', 'L', 'T');
    TwoLetters('=', 'E', 'Q');
    TwoLetters('>', 'G', 'T');
    TwoLetters('?', 'Q', 'Q');
    TwoLetters('@', 'A', 'T');
  }

  /** Brackets and what stands between them. */
  lemma BracketNames()
    ensures Mangle("[") == "LBR." && Mangle("\\") == "RDV." && Mangle("]") == "RBR." && Mangle("^") == "POW."
    ensures Mangle("`") == "TIC."
  {
    hide Mangle;
    ThreeLetters('[', 'L', 'B', 'R');
    ThreeLetters('\\', 'R', 'D', 'V');
    ThreeLetters(']', 'R', 'B', 'R');
    ThreeLetters('^', 'P', 'O', 'W');
    ThreeLetters('`', 'T', 'I', 'C');
  }

  /** Braces to the delete character. */
  lemma BraceNames()
    ensures Mangle("{") == "LCR." && Mangle("|") == "OR." && Mangle("}") == "RCR." && Mangle("~") == "TLD."
    ensures Mangle("\U{7f}") == "DEL."
  {
    hide Mangle;
    ThreeLetters('{', 'L', 'C', 'R');
    TwoLetters('|', 'O', 'R');
    ThreeLetters('}', 'R', 'C', 'R');
    ThreeLetters('~', 'T', 'L', 'D');
    ThreeLetters('\U{7f}', 'D', 'E', 'L');
  }

  /** The remaining bytes, control characters, comma, semicolon and 255, are written in hexadecimal. */
  lemma HexEscapes(c: NameChar)
    requires c as int < 32 || c == ',' || c == ';' || c as int == 255
    ensures Mangle([c]) == ["0123456789ABCDEF"[c as int / 16], "0123456789ABCDEF"[c as int % 16], '.']
  {
    MangleOne(c);
    HexCharIs(c as int / 16);
    HexCharIs(c as int % 16);
  }

  lemma HexCharIs(d: nat)
    requires d < 16
    ensures HexChar(d) == "0123456789ABCDEF"[d]
  {
  }

  /** The example of the comment, with the three bytes of the sign in the middle written out. */
  lemma DocumentedExample()
    ensures Mangle("llvm.a\U{e2}\U{89}\U{a0}a$a!a##") == "llvmDOT.a\U{e2}\U{89}\U{a0}a$aNOT.aYY.YY."
  {
    hide Mangle;
    PunctuationNames();
    OperatorNames();
    ExampleParts();
    var middle: seq<NameChar> := "a\U{e2}\U{89}\U{a0}a$a";
    MangleAppend("llvm", ".");
    MangleAppend("llvm" + ".", middle);
    MangleAppend("llvm" + "." + middle, "!");
    MangleAppend("llvm" + "." + middle + "!", "a");
    MangleAppend("llvm" + "." + middle + "!" + "a", "#");
    MangleAppend("llvm" + "." + middle + "!" + "a" + "#", "#");
    assert "llvm" + "." + middle + "!" + "a" + "#" + "#" == "llvm.a\U{e2}\U{89}\U{a0}a$a!a##";
    assert "llvm" + "DOT." + middle + "NOT." + "a" + "YY." + "YY." ==
      "llvmDOT.a\U{e2}\U{89}\U{a0}a$aNOT.aYY.YY.";
  }

  lemma ExampleParts()
    ensures Mangle("llvm") == "llvm" && Mangle("a") == "a"
    ensures Mangle("a\U{e2}\U{89}\U{a0}a$a") == "a\U{e2}\U{89}\U{a0}a$a"
  {
    hide Mangle;
    UnchangedIff("llvm");
    UnchangedIff("a");
    UnchangedIff("a\U{e2}\U{89}\U{a0}a$a");
  }

  // ---------------------------------------------------------------------------
  // The loop.
  // ---------------------------------------------------------------------------

  /** The pushes for one byte. */
  method PushByte(buffer: seq<NameChar>, c: NameChar) returns (safeName: seq<NameChar>)
    ensures safeName == buffer + Mangled(c)
  {
    hide CommonName, HexChar, IsSafe;
    safeName := buffer;
    if IsSafe(c) {
      safeName := safeName + [c];
    } else {
      match CommonName(c) {
        case Some(Two(x, y)) =>
          safeName := safeName + [x];
          safeName := safeName + [y];
        case Some(Three(x, y, z)) =>
          safeName := safeName + [x];
          safeName := safeName + [y];
          safeName := safeName + [z];
        case None =>
          safeName := safeName + [HexChar(c as int / 16 % 16)];
          safeName := safeName + [HexChar(c as int % 16)];
      }
      assert safeName == buffer + Letters(EscapeCode(c));
      safeName := safeName + ['.'];
    }
  }

  /** The loop over the bytes of the name, and the rename if the length changed. */
  method MakeSafeName(name: seq<NameChar>) returns (newName: seq<NameChar>)
    ensures newName == Mangle(name)
  {
    hide Mangled;
    var safeName: seq<NameChar> := [];
    for i := 0 to |name|
      invariant safeName == Mangle(name[..i])
    {
      assert name[..i + 1][..i] == name[..i];
      safeName := PushByte(safeName, name[i]);
    }
    assert name[..|name|] == name;
    SameLengthMeansUnchanged(name);
    newName := if |safeName| != |name| then safeName else name;
  }
}
