/**
 * The pure part of `get_symbol_address`: the symbol lister's output is
 * filtered to the lines containing the symbol name (what `grep name` keeps,
 * read as a plain substring match), the filtered text is stripped, and its
 * first whitespace-delimited token is read as a hexadecimal address.
 */
module SymbolTable {
  import opened Wrappers
  import opened Hex

  /** The characters Python's `str.strip()` and `str.split()` treat as whitespace. */
  predicate IsSpace(c: char)
    ensures (c == ' ' || c == '\t' || c == '\n' || c == '\r') ==> IsSpace(c)
    ensures IsSpace(c) ==> !IsHexDigit(c)
  {
    c == ' ' || '\t' <= c <= '\r' || '\U{1c}' <= c <= '\U{1f}'
    || c == '\U{85}' || c == '\U{a0}' || c == '\U{1680}'
    || '\U{2000}' <= c <= '\U{200a}' || c == '\U{2028}' || c == '\U{2029}'
    || c == '\U{202f}' || c == '\U{205f}' || c == '\U{3000}'
  }

  predicate AllSpace(s: string)
  {
    forall i :: 0 <= i < |s| ==> IsSpace(s[i])
  }

  /** `p` occurs in `s` as a contiguous substring. */
  function Contains(s: string, p: string): (b: bool)
    ensures b ==> |p| <= |s|
    ensures |p| <= |s| && s[..|p|] == p ==> b
    decreases |s|
  {
    if |p| > |s| then false
    else if s[..|p|] == p then true
    else Contains(s[1..], p)
  }

  /** `p` occurs in `s` starting at index `i`. */
  predicate OccursAt(s: string, p: string, i: nat)
  {
    i + |p| <= |s| && s[i..i + |p|] == p
  }

  /** `Contains` agrees with the positional definition of a substring occurrence. */
  lemma {:induction false} ContainsIff(s: string, p: string)
    ensures Contains(s, p) <==> exists i: nat :: OccursAt(s, p, i)
    decreases |s|
  {
    if |p| > |s| {
    } else if s[..|p|] == p {
      assert OccursAt(s, p, 0);
    } else {
      ContainsIff(s[1..], p);
      if Contains(s, p) {
        var i: nat :| OccursAt(s[1..], p, i);
        assert s[i + 1..i + 1 + |p|] == s[1..][i..i + |p|];
        assert OccursAt(s, p, i + 1);
      }
      if exists i: nat :: OccursAt(s, p, i) {
        var i: nat :| OccursAt(s, p, i);
        TailSlice(s, i, |p|);
        assert OccursAt(s[1..], p, i - 1);
      }
    }
  }

  /** Dropping the head of `s` shifts every later slice by one. */
  lemma TailSlice(s: string, i: nat, n: nat)
    requires 0 < i && i + n <= |s|
    ensures s[1..][i - 1..i - 1 + n] == s[i..i + n]
  {
  }

  /** A line that contains a name with a visible character has a visible character itself. */
  lemma ContainsVisible(line: string, name: string)
    requires !AllSpace(name) && Contains(line, name)
    ensures !AllSpace(line)
  {
    ContainsIff(line, name);
    var p: nat :| OccursAt(line, name, p);
    var q :| 0 <= q < |name| && !IsSpace(name[q]);
    assert line[p..p + |name|][q] == line[p + q];
  }

  /** The lines `grep name` keeps, in their original order. */
  function Matching(lines: seq<string>, name: string): (r: seq<string>)
    ensures |r| <= |lines|
    ensures forall l :: l in r ==> l in lines && Contains(l, name)
    ensures forall l :: l in lines && Contains(l, name) ==> l in r
    ensures r == [] <==> forall l :: l in lines ==> !Contains(l, name)
  {
    if lines == [] then []
    else
      assert forall l :: l in lines <==> l == lines[0] || l in lines[1..];
      (if Contains(lines[0], name) then [lines[0]] else []) + Matching(lines[1..], name)
  }

  /** The first kept line is the first line of the listing that contains the name. */
  lemma {:induction false} MatchingHead(lines: seq<string>, name: string, i: nat)
    requires i < |lines| && Contains(lines[i], name)
    requires forall j :: 0 <= j < i ==> !Contains(lines[j], name)
    ensures Matching(lines, name) != [] && Matching(lines, name)[0] == lines[i]
  {
    if i > 0 {
      MatchingHead(lines[1..], name, i - 1);
    }
  }

  /** `grep` prints each kept line followed by a newline. */
  function Join(lines: seq<string>): (s: string)
    ensures s == [] <==> lines == []
    ensures s != [] ==> s[|s| - 1] == '\n'
  {
    if lines == [] then [] else lines[0] + "\n" + Join(lines[1..])
  }

  /** The printed text of two runs of lines is the text of the first followed by that of the second. */
  lemma {:induction false} JoinAppend(a: seq<string>, b: seq<string>)
    ensures Join(a + b) == Join(a) + Join(b)
  {
    if a != [] {
      assert (a + b)[1..] == a[1..] + b;
      JoinAppend(a[1..], b);
    } else {
      assert a + b == b;
    }
  }

  /** The text `grep name` prints: empty exactly when no line of the listing contains the name. */
  function GrepOutput(lines: seq<string>, name: string): (s: string)
    ensures s == [] <==> forall l :: l in lines ==> !Contains(l, name)
  {
    Join(Matching(lines, name))
  }

  /** Index of the first non-whitespace character of `s`, or `|s|` if there is none. */
  function FirstNonSpace(s: string): (k: nat)
    ensures k <= |s|
    ensures forall j :: 0 <= j < k ==> IsSpace(s[j])
    ensures k < |s| ==> !IsSpace(s[k])
  {
    if s == [] || !IsSpace(s[0]) then 0 else 1 + FirstNonSpace(s[1..])
  }

  /** The longest prefix of `s` free of whitespace. */
  function Word(s: string): (w: string)
    ensures |w| <= |s| && w == s[..|w|]
    ensures forall j :: 0 <= j < |w| ==> !IsSpace(w[j])
    ensures |w| == |s| || IsSpace(s[|w|])
  {
    if s == [] || IsSpace(s[0]) then [] else [s[0]] + Word(s[1..])
  }

  /**
   * `s.strip()` checked for emptiness, then `s.split()[0]`: no token exactly
   * when `s` is all whitespace; otherwise the token is the maximal
   * non-whitespace run starting at the first non-whitespace character.
   */
  function FirstToken(s: string): (t: Option<string>)
    ensures t.None? <==> AllSpace(s)
    ensures t.Some? ==>
      var k := FirstNonSpace(s);
      t.value != [] && k + |t.value| <= |s| && s[k..k + |t.value|] == t.value
      && (forall j :: 0 <= j < |t.value| ==> !IsSpace(t.value[j]))
      && (k + |t.value| == |s| || IsSpace(s[k + |t.value|]))
  {
    var k := FirstNonSpace(s);
    if k == |s| then None else Some(Word(s[k..]))
  }

  /** Text after a whitespace character cannot change the first token of a text that has one. */
  lemma {:induction false} FirstTokenOfPrefix(a: string, b: string)
    requires !AllSpace(a)
    requires b == [] || IsSpace(b[0])
    ensures FirstToken(a + b) == FirstToken(a)
  {
    var k := FirstNonSpaceOfPrefix(a, b);
    assert (a + b)[k..] == a[k..] + b;
    WordOfPrefix(a[k..], b);
  }

  lemma {:induction false} FirstNonSpaceOfPrefix(a: string, b: string) returns (k: nat)
    requires !AllSpace(a)
    ensures k == FirstNonSpace(a) == FirstNonSpace(a + b) && k < |a|
  {
    if IsSpace(a[0]) {
      assert (a + b)[1..] == a[1..] + b;
      var k' := FirstNonSpaceOfPrefix(a[1..], b);
      k := k' + 1;
    } else {
      k := 0;
    }
  }

  lemma {:induction false} WordOfPrefix(a: string, b: string)
    requires b == [] || IsSpace(b[0])
    ensures Word(a + b) == Word(a)
  {
    if a == [] {
    } else if !IsSpace(a[0]) {
      assert (a + b)[1..] == a[1..] + b;
      WordOfPrefix(a[1..], b);
    }
  }

  /**
   * The address of `name` in a symbol listing: `None` when `grep` fails
   * (no pattern), when no line matches, or when the first token is not hex.
   */
  function SymbolAddress(lines: seq<string>, name: string): (r: Option<nat>)
    ensures name == [] ==> r.None?
    ensures (forall l :: l in lines ==> !Contains(l, name)) ==> r.None?
  {
    if name == [] then None
    else
      match FirstToken(GrepOutput(lines, name))
      case None => None
      case Some(token) => ParseHex(token)
  }

  /**
   * When the name has a non-whitespace character, the address is the hex value
   * of the first token of the first listing line that contains the name.
   */
  lemma FirstMatchDecides(lines: seq<string>, name: string, i: nat)
    requires !AllSpace(name)
    requires i < |lines| && Contains(lines[i], name)
    requires forall j :: 0 <= j < i ==> !Contains(lines[j], name)
    ensures FirstToken(lines[i]).Some?
    ensures SymbolAddress(lines, name) == ParseHex(FirstToken(lines[i]).value)
  {
    ContainsVisible(lines[i], name);
    var rest := GrepOutputHead(lines, name, i);
    FirstTokenOfPrefix(lines[i], "\n" + rest);
  }

  /** The printed text starts with the first matching line and a newline. */
  lemma GrepOutputHead(lines: seq<string>, name: string, i: nat) returns (rest: string)
    requires i < |lines| && Contains(lines[i], name)
    requires forall j :: 0 <= j < i ==> !Contains(lines[j], name)
    ensures GrepOutput(lines, name) == lines[i] + ("\n" + rest)
  {
    MatchingHead(lines, name, i);
    var m := Matching(lines, name);
    rest := Join(m[1..]);
    assert Join(m) == lines[i] + ("\n" + rest);
  }

  lemma {:induction false} WordOfVisible(a: string)
    requires forall j :: 0 <= j < |a| ==> !IsSpace(a[j])
    ensures Word(a) == a
  {
    if a != [] {
      WordOfVisible(a[1..]);
    }
  }

  /** A line of the form `80000004 T _bin_file_size` yields address 0x80000004. */
  lemma SampleListing()
    ensures SymbolAddress(["80000004 T _bin_file_size"], "_bin_file_size") == Some(0x80000004)
  {
    var line := "80000004 T _bin_file_size";
    SampleLineToken(line);
    SampleLineMatches(line, "_bin_file_size");
    FirstMatchDecides([line], "_bin_file_size", 0);
    ParseSampleAddress();
  }

  lemma SampleLineMatches(line: string, name: string)
    requires line == "80000004 T _bin_file_size" && name == "_bin_file_size"
    ensures Contains(line, name) && !AllSpace(name)
  {
    assert OccursAt(line, name, 11);
    ContainsIff(line, name);
    assert !IsSpace(name[0]);
  }

  /** A text that starts with a visible word followed by whitespace has that word as its first token. */
  lemma FirstTokenOfWord(w: string, rest: string)
    requires w != [] && forall j :: 0 <= j < |w| ==> !IsSpace(w[j])
    requires rest == [] || IsSpace(rest[0])
    ensures FirstToken(w + rest) == Some(w)
  {
    assert FirstNonSpace(w + rest) == 0;
    assert (w + rest)[0..] == w + rest;
    WordOfPrefix(w, rest);
    WordOfVisible(w);
  }

  lemma SampleLineToken(line: string)
    requires line == "80000004 T _bin_file_size"
    ensures FirstToken(line) == Some("80000004")
  {
    var addr, rest := "80000004", " T _bin_file_size";
    assert line == addr + rest;
    assert AllHexDigits(addr);
    assert forall j :: 0 <= j < |addr| ==> !IsSpace(addr[j]);
    FirstTokenOfWord(addr, rest);
  }

  /**
   * A one-line listing `<hex digits><rest>` that contains the name yields
   * the value of those digits.
   */
  lemma ListingLineAddress(digits: string, rest: string, name: string)
    requires digits != [] && AllHexDigits(digits)
    requires rest == [] || IsSpace(rest[0])
    requires !AllSpace(name) && Contains(digits + rest, name)
    ensures SymbolAddress([digits + rest], name) == ParseHex(digits)
  {
    FirstTokenOfWord(digits, rest);
    FirstMatchDecides([digits + rest], name, 0);
  }

  /** Leading whitespace does not change the first token. */
  lemma FirstTokenAfterSpaces(sp: string, s: string)
    requires AllSpace(sp)
    ensures FirstToken(sp + s) == FirstToken(s)
  {
    FirstNonSpaceAfterSpaces(sp, s);
    var k := FirstNonSpace(s);
    if k < |s| {
      assert (sp + s)[|sp| + k..] == s[k..];
    }
  }

  lemma {:induction false} FirstNonSpaceAfterSpaces(sp: string, s: string)
    requires AllSpace(sp)
    ensures FirstNonSpace(sp + s) == |sp| + FirstNonSpace(s)
  {
    if sp == [] {
      assert sp + s == s;
    } else {
      assert (sp + s)[0] == sp[0] && IsSpace(sp[0]);
      assert (sp + s)[1..] == sp[1..] + s;
      FirstNonSpaceAfterSpaces(sp[1..], s);
    }
  }

  /**
   * A one-line listing `<whitespace><word><rest>` that contains the name
   * resolves to the hex value of the word, if it has one.
   */
  lemma ListingLineWord(sp: string, word: string, rest: string, name: string)
    requires AllSpace(sp) && word != [] && forall j :: 0 <= j < |word| ==> !IsSpace(word[j])
    requires rest == [] || IsSpace(rest[0])
    requires !AllSpace(name) && Contains(sp + (word + rest), name)
    ensures SymbolAddress([sp + (word + rest)], name) == ParseHex(word)
  {
    FirstMatchDecides([sp + (word + rest)], name, 0);
    FirstTokenAfterSpaces(sp, word + rest);
    FirstTokenOfWord(word, rest);
  }

  /**
   * A symbol the executable only references is listed without an address
   * (`         U _bin_file_size`); its first token `U` is not hex, so the lookup fails.
   */
  lemma UndefinedSymbolFails()
    ensures SymbolAddress(["         U _bin_file_size"], "_bin_file_size") == None
  {
    var sp, kind, rest := "         ", "U", " _bin_file_size";
    assert sp + (kind + rest) == "         U _bin_file_size";
    UndefinedLine(sp, kind, rest, "_bin_file_size");
  }

  lemma UndefinedLine(sp: string, kind: string, rest: string, name: string)
    requires sp == "         " && kind == "U" && rest == " _bin_file_size" && name == "_bin_file_size"
    ensures SymbolAddress([sp + (kind + rest)], name) == None
  {
    var line := sp + (kind + rest);
    assert line[11..] == name;
    assert OccursAt(line, name, 11);
    ContainsIff(line, name);
    assert !IsSpace(name[0]);
    ListingLineWord(sp, kind, rest, name);
    assert !IsHexDigit(kind[0]);
  }
}
