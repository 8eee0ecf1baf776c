/** The voice name: ten bytes at the head of a patch image, read as character
    codes. This module holds the string handling the librarian applies to them:
    building the name from bytes, Python's str.strip and str.replace, the
    suggested file name, the name shown after "Get Name", and the fixed-width
    encoding sent by "Set Name". */
module VoiceName {
  import opened Midi

  /** Ten spaces: what "Set Name" appends before cutting the name to ten characters. */
  const Padding: string := "          "

  /** chr of each byte, in order. */
  function Decode(codes: seq<byte>): (s: string)
    ensures |s| == |codes|
    ensures forall i :: 0 <= i < |s| ==> s[i] as int == codes[i]
  {
    seq(|codes|, i requires 0 <= i < |codes| => codes[i] as char)
  }

  /** Names made only of characters whose codes fit in a byte. */
  predicate Latin1(s: string)
  {
    forall i :: 0 <= i < |s| ==> s[i] as int < 0x100
  }

  /** ord of each character of (name + ten spaces)[0:10]. */
  function EncodeName(name: string): (codes: seq<byte>)
    requires Latin1(name)
    ensures |codes| == 10
    ensures forall i :: 0 <= i < 10 ==> codes[i] == if i < |name| then name[i] as int else ' ' as int
  {
    var padded := (name + Padding)[..10];
    seq(10, i requires 0 <= i < 10 => padded[i] as int)
  }

  /** Builds the name string one character at a time from its bytes. */
  method DecodeName(codes: seq<byte>) returns (s: string)
    ensures s == Decode(codes)
  {
    s := "";
    for i := 0 to |codes|
      invariant |s| == i
      invariant forall j :: 0 <= j < i ==> s[j] as int == codes[j]
    {
      s := s + [codes[i] as char];
    }
  }

  /** Builds the ten name bytes by appending ord of each character of the padded,
      truncated name. */
  method NameCodes(name: string) returns (codes: seq<byte>)
    requires Latin1(name)
    ensures codes == EncodeName(name)
  {
    var padded := name + Padding;
    codes := [];
    for i := 0 to 10
      invariant |codes| == i
      invariant forall j :: 0 <= j < i ==> codes[j] == padded[j] as int
    {
      codes := codes + [padded[i] as int];
    }
  }

  /** Python's str.isspace for one character: the ASCII tab, line feed,
      vertical tab, form feed, carriage return and space, the separators 0x1C
      to 0x1F, and the Unicode spaces; never a digit or a letter. */
  predicate IsSpace(c: char): (b: bool)
    ensures (c as int) in {0x09, 0x0A, 0x0B, 0x0C, 0x0D, 0x20} ==> b
    ensures ('0' <= c <= '9' || 'A' <= c <= 'Z' || 'a' <= c <= 'z') ==> !b
  {
    var n := c as int;
    (0x09 <= n <= 0x0D) || (0x1C <= n <= 0x20) || n == 0x85 || n == 0xA0 || n == 0x1680
    || (0x2000 <= n <= 0x200A) || n == 0x2028 || n == 0x2029 || n == 0x202F || n == 0x205F
    || n == 0x3000
  }

  /** s without its leading whitespace. */
  function StripLeading(s: string): (r: string)
    ensures |r| <= |s| && r == s[|s| - |r|..]
    ensures forall i :: 0 <= i < |s| - |r| ==> IsSpace(s[i])
    ensures r == [] || !IsSpace(r[0])
  {
    if s != [] && IsSpace(s[0]) then StripLeading(s[1..]) else s
  }

  /** s without its trailing whitespace. */
  function StripTrailing(s: string): (r: string)
    ensures |r| <= |s| && r == s[..|r|]
    ensures forall i :: |r| <= i < |s| ==> IsSpace(s[i])
    ensures r == [] || !IsSpace(r[|r| - 1])
  {
    if s != [] && IsSpace(s[|s| - 1]) then StripTrailing(s[..|s| - 1]) else s
  }

  /** Python's str.strip() with no argument: no whitespace is left at either
      end (StripMiddle says what is kept). */
  function Strip(s: string): (r: string)
    ensures r == [] || (!IsSpace(r[0]) && !IsSpace(r[|r| - 1]))
  {
    StripEdges(s);
    StripTrailing(StripLeading(s))
  }

  /** Each half of Strip removes the whitespace at its own end. */
  lemma StripEdges(s: string)
    ensures var r := StripTrailing(StripLeading(s));
            r == [] || (!IsSpace(r[0]) && !IsSpace(r[|r| - 1]))
  {
    var left := StripLeading(s);
    var r := StripTrailing(left);
    assert r != [] ==> r[0] == left[0];
  }

  /** What Strip keeps: the middle of s between a whitespace prefix and a
      whitespace suffix. */
  lemma StripMiddle(s: string)
    ensures var r := Strip(s);
            exists k :: 0 <= k <= |s| - |r| && r == s[k..][..|r|]
                        && (forall i :: 0 <= i < k ==> IsSpace(s[i]))
                        && (forall i :: k + |r| <= i < |s| ==> IsSpace(s[i]))
  {
    var left := StripLeading(s);
    var r, k := StripTrailing(left), |s| - |left|;
    SuffixOfSpaces(s, left, r);
    assert r == s[k..][..|r|];
  }

  /** Whitespace after a prefix r of the tail left of s is whitespace of s. */
  lemma SuffixOfSpaces(s: string, left: string, r: string)
    requires |left| <= |s| && left == s[|s| - |left|..]
    requires |r| <= |left| && r == left[..|r|]
    requires forall i :: |r| <= i < |left| ==> IsSpace(left[i])
    ensures forall i :: |s| - |left| + |r| <= i < |s| ==> IsSpace(s[i])
  {
    var k := |s| - |left|;
    forall i | k + |r| <= i < |s|
      ensures IsSpace(s[i])
    {
      assert s[i] == left[i - k];
    }
  }

  /** Python's str.replace(pattern, substitute) for a one-character pattern. */
  function Replace(s: string, pattern: char, substitute: string): string
  {
    if s == [] then []
    else (if s[0] == pattern then substitute else [s[0]]) + Replace(s[1..], pattern, substitute)
  }

  /** Replace works piece by piece: on a concatenation it is the concatenation
      of the replacements. With ReplaceSingle this fixes the result, order and
      count included. */
  lemma {:induction false} ReplaceAppend(a: string, b: string, pattern: char, substitute: string)
    ensures Replace(a + b, pattern, substitute) == Replace(a, pattern, substitute) + Replace(b, pattern, substitute)
    decreases |a|
  {
    if a == [] {
      assert a + b == b;
    } else {
      ReplaceAppend(a[1..], b, pattern, substitute);
      assert (a + b)[1..] == a[1..] + b;
    }
  }

  /** A string without the pattern is left as it is. */
  lemma {:induction false} ReplaceAbsent(s: string, pattern: char, substitute: string)
    ensures pattern !in s ==> Replace(s, pattern, substitute) == s
    decreases |s|
  {
    if s != [] {
      assert pattern !in s ==> s[0] != pattern && pattern !in s[1..];
      ReplaceAbsent(s[1..], pattern, substitute);
    }
  }

  /** The characters of the result are those of s other than the pattern,
      together with those of the substitute when the pattern occurs. */
  lemma {:induction false} ReplaceChars(s: string, pattern: char, substitute: string)
    ensures forall c :: c in Replace(s, pattern, substitute) <==>
              (c in s && c != pattern) || (pattern in s && c in substitute)
    decreases |s|
  {
    if s != [] {
      ReplaceChars(s[1..], pattern, substitute);
      assert forall c :: c in s <==> c == s[0] || c in s[1..];
    }
  }

  /** A single character is replaced by the substitute if it is the pattern,
      and is kept otherwise. */
  lemma ReplaceSingle(c: char, pattern: char, substitute: string)
    ensures Replace([c], pattern, substitute) == if c == pattern then substitute else [c]
  {
    assert [c][1..] == [];
  }

  /** Replacing by one character keeps the length and changes exactly the
      positions that hold the pattern. */
  lemma {:induction false} ReplaceByChar(s: string, pattern: char, substitute: char)
    ensures |Replace(s, pattern, [substitute])| == |s|
    ensures forall i :: 0 <= i < |s| ==>
              Replace(s, pattern, [substitute])[i] == if s[i] == pattern then substitute else s[i]
    decreases |s|
  {
    if s != [] {
      ReplaceByChar(s[1..], pattern, substitute);
    }
  }

  /** Deletes every '/' and turns every '\' into '£'. The result has no path
      separator, and keeps every other character of the input except that '£'
      may also stand for a removed '\'. */
  function Sanitize(s: string): (r: string)
    ensures '/' !in r && '\\' !in r
    ensures forall c :: c != '£' ==> (c in r <==> c in s && c != '/' && c != '\\')
    ensures '/' !in s && '\\' !in s ==> r == s
  {
    var once := Replace(s, '/', "");
    ReplaceChars(s, '/', "");
    ReplaceChars(once, '\\', "£");
    ReplaceAbsent(s, '/', "");
    ReplaceAbsent(s, '\\', "£");
    Replace(once, '\\', "£")
  }

  /** A '/' between two separator-free pieces is deleted, and a trailing '\'
      becomes '£'. */
  lemma SanitizeSeparators(a: string, b: string)
    requires '/' !in a && '\\' !in a && '/' !in b && '\\' !in b
    ensures Sanitize(a + ['/'] + b + ['\\']) == a + b + ['£']
  {
    SlashDeleted(a, b);
    ReplaceAppend(a + b, ['\\'], '\\', "£");
    assert '\\' !in a + b;
    ReplaceAbsent(a + b, '\\', "£");
    ReplaceSingle('\\', '\\', "£");
  }

  /** The first pass of Sanitize on a + "/" + b + "\". */
  lemma SlashDeleted(a: string, b: string)
    requires '/' !in a && '/' !in b
    ensures Replace(a + ['/'] + b + ['\\'], '/', "") == a + b + ['\\']
  {
    ReplaceAppend(a + ['/'] + b, ['\\'], '/', "");
    ReplaceAppend(a + ['/'], b, '/', "");
    ReplaceAppend(a, ['/'], '/', "");
    ReplaceSingle('/', '/', "");
    ReplaceSingle('\\', '/', "");
    ReplaceAbsent(a, '/', "");
    ReplaceAbsent(b, '/', "");
  }

  /** The name "Lead/1\" loses its '/' and its '\' becomes '£'. */
  lemma SanitizeExample()
    ensures Sanitize("Lead/1\\") == "Lead1£"
  {
    SanitizeSeparators("Lead", "1");
    assert "Lead/1\\" == "Lead" + ['/'] + "1" + ['\\'];
    assert "Lead1£" == "Lead" + "1" + ['£'];
  }

  /** The first ten bytes of a patch, or all of it if shorter. */
  function NameField(voice: seq<byte>): (field: seq<byte>)
    ensures |field| == if |voice| < 10 then |voice| else 10
    ensures field == voice[..|field|]
  {
    if |voice| < 10 then voice else voice[..10]
  }

  /** The file name offered when saving a downloaded patch: it ends in ".syx"
      and contains no path separator. */
  function SuggestedFileName(voice: seq<byte>): (f: string)
    ensures |f| >= 4 && f[|f| - 4..] == ".syx" && '/' !in f && '\\' !in f
  {
    var stem := Sanitize(Strip(Decode(NameField(voice))));
    WithExtension(stem);
    stem + ".syx"
  }

  /** Appending ".syx" adds no path separator. */
  lemma WithExtension(stem: string)
    requires '/' !in stem && '\\' !in stem
    ensures var f := stem + ".syx"; |f| >= 4 && f[|f| - 4..] == ".syx" && '/' !in f && '\\' !in f
  {
    var f := stem + ".syx";
    assert f[|f| - 4..] == ".syx";
    assert forall c :: c in f ==> c in stem || c in ".syx";
  }

  /** The name shown after "Get Name": sanitised like the file name but not
      stripped, so it keeps the name's length apart from removed '/'. */
  function DisplayName(nameBytes: seq<byte>): (d: string)
    ensures '/' !in d && '\\' !in d
    ensures '/' !in Decode(nameBytes) ==> |d| == |nameBytes|
  {
    var decoded := Decode(nameBytes);
    ReplaceAbsent(decoded, '/', "");
    ReplaceByChar(decoded, '\\', '£');
    Sanitize(decoded)
  }

  /** Spaces appended to a name whose last character is not whitespace are
      exactly what StripTrailing removes. */
  lemma {:induction false} StripTrailingSpaces(name: string, pad: string)
    requires forall i :: 0 <= i < |pad| ==> pad[i] == ' '
    requires name == [] || !IsSpace(name[|name| - 1])
    ensures StripTrailing(name + pad) == name
    decreases |pad|
  {
    if pad == [] {
      assert name + pad == name;
    } else {
      var s, t := name + pad, name + pad[..|pad| - 1];
      assert s[..|s| - 1] == t;
      assert s[|s| - 1] == ' ';
      StripTrailingSpaces(name, pad[..|pad| - 1]);
    }
  }

  /** A name of at most ten characters comes back from its encoding with the
      spaces that pad it to ten. */
  lemma DecodePadded(name: string)
    requires Latin1(name) && |name| <= 10
    ensures Decode(EncodeName(name)) == name + Padding[..10 - |name|]
  {
    var padded := name + Padding[..10 - |name|];
    var back := Decode(EncodeName(name));
    forall i | 0 <= i < 10
      ensures back[i] == padded[i]
    {
      if i >= |name| {
        assert padded[i] == Padding[i - |name|] == ' ';
      }
    }
  }

  /** Stripping a padded name without edge whitespace gives the name back. */
  lemma StripPadded(name: string)
    requires |name| <= 10
    requires name == [] || (!IsSpace(name[0]) && !IsSpace(name[|name| - 1]))
    ensures Strip(name + Padding[..10 - |name|]) == name
  {
    var pad := Padding[..10 - |name|];
    var padded := name + pad;
    if name == [] {
      assert padded == pad;
      assert StripLeading(padded) == [] by {
        assert forall i :: 0 <= i < |padded| ==> IsSpace(padded[i]);
      }
    } else {
      assert padded[0] == name[0];
      assert StripLeading(padded) == padded;
      StripTrailingSpaces(name, pad);
    }
  }

  /** A name without edge whitespace or path separators, at most ten characters,
      survives "Set Name" followed by a download: the file name offered is the
      name itself. */
  lemma SetNameThenFileName(name: string, rest: seq<byte>)
    requires Latin1(name) && |name| <= 10
    requires name == [] || (!IsSpace(name[0]) && !IsSpace(name[|name| - 1]))
    requires '/' !in name && '\\' !in name
    ensures SuggestedFileName(EncodeName(name) + rest) == name + ".syx"
  {
    var voice := EncodeName(name) + rest;
    assert NameField(voice) == EncodeName(name);
    DecodePadded(name);
    StripPadded(name);
  }

  /** "Get Name" does not strip: the same name comes back with the padding that
      "Set Name" added. */
  lemma SetNameThenDisplay(name: string)
    requires Latin1(name) && |name| <= 10
    requires '/' !in name && '\\' !in name
    ensures DisplayName(EncodeName(name)) == name + Padding[..10 - |name|]
  {
    var padded := name + Padding[..10 - |name|];
    DecodePadded(name);
    assert '/' !in Padding && '\\' !in Padding;
    assert forall c :: c in padded ==> c in name || c in Padding;
  }

  /** A name longer than ten characters is cut to its first ten. */
  lemma LongNameTruncated(name: string)
    requires Latin1(name) && |name| >= 10
    ensures Decode(EncodeName(name)) == name[..10]
  {
  }
}
