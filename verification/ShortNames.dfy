// 8.3 directory names: the two renderings in the FAT reader, and an inverse.
module ShortNames {
  import opened Bits

  const SPACE: Byte := 0x20
  const DOT: Byte := 0x2e

  type RawName = r: seq<Byte> | |r| == 11 witness seq(11, i => 0x20)

  /** The length of a field without its trailing spaces. */
  function TrimmedLength(field: seq<Byte>): (n: nat)
    ensures n <= |field|
  {
    if field == [] || field[|field| - 1] != SPACE then |field| else TrimmedLength(field[..|field| - 1])
  }

  function Trimmed(field: seq<Byte>): seq<Byte>
  {
    field[..TrimmedLength(field)]
  }

  /** "NAME.EXT", or "NAME" when the extension is blank. */
  function ShortName(raw: RawName): (name: seq<Byte>)
    ensures |name| <= 12
  {
    var base, extension := Trimmed(raw[..8]), Trimmed(raw[8..]);
    if extension == [] then base else base + [DOT] + extension
  }

  function Padded(field: seq<Byte>, width: nat): seq<Byte>
  {
    if |field| >= width then field else field + seq(width - |field|, i => SPACE)
  }

  /** The part before the first dot, and the part after it. */
  function BeforeDot(name: seq<Byte>): (b: seq<Byte>)
    ensures |b| <= |name| && DOT !in b
  {
    if name == [] || name[0] == DOT then [] else [name[0]] + BeforeDot(name[1..])
  }

  function AfterDot(name: seq<Byte>): seq<Byte>
  {
    var n := |BeforeDot(name)|;
    if n < |name| then name[n + 1..] else []
  }

  /** Rebuilds the directory field from a rendered name. */
  function RawOf(name: seq<Byte>): seq<Byte>
  {
    Padded(BeforeDot(name), 8) + Padded(AfterDot(name), 3)
  }

  lemma {:induction false} PaddedTrimmed(field: seq<Byte>)
    ensures Padded(Trimmed(field), |field|) == field
    ensures forall i :: TrimmedLength(field) <= i < |field| ==> field[i] == SPACE
  {
    if field != [] && field[|field| - 1] == SPACE {
      var front := field[..|field| - 1];
      PaddedTrimmed(front);
      assert Trimmed(field) == Trimmed(front);
      assert forall i :: TrimmedLength(field) <= i < |front| ==> field[i] == front[i];
    }
  }

  lemma {:induction false} SplitAtDot(base: seq<Byte>, rest: seq<Byte>)
    requires DOT !in base && (rest == [] || rest[0] == DOT)
    ensures BeforeDot(base + rest) == base
  {
    if base == [] {
      assert base + rest == rest;
    } else {
      assert (base + rest)[1..] == base[1..] + rest;
      SplitAtDot(base[1..], rest);
    }
  }

  // The rendering can be undone exactly when the name part holds no dot.
  lemma ShortNameRoundTrip(raw: RawName)
    ensures RawOf(ShortName(raw)) == raw <==> DOT !in raw[..8]
  {
    var base, extension := Trimmed(raw[..8]), Trimmed(raw[8..]);
    var name := ShortName(raw);
    PaddedTrimmed(raw[..8]);
    PaddedTrimmed(raw[8..]);
    if DOT !in raw[..8] {
      var rest := if extension == [] then [] else [DOT] + extension;
      assert name == base + rest;
      SplitAtDot(base, rest);
      assert AfterDot(name) == extension;
      assert raw == raw[..8] + raw[8..];
    } else {
      var i :| 0 <= i < 8 && raw[i] == DOT;
      var b := Padded(BeforeDot(name), 8);
      assert DOT !in b;
      assert RawOf(name)[i] == b[i] != DOT;
    }
  }

  // Two different fields without dots in the name part never look the same.
  lemma ShortNamesDiffer(a: RawName, b: RawName)
    requires DOT !in a[..8] && DOT !in b[..8] && a != b
    ensures ShortName(a) != ShortName(b)
  {
    ShortNameRoundTrip(a);
    ShortNameRoundTrip(b);
  }

  // With a dot in the name part they can: "A.B" with a blank extension and "A"
  // with extension "B".
  lemma DotsCollide()
    ensures var a: RawName := [65, 46, 66, 32, 32, 32, 32, 32, 32, 32, 32];
            var b: RawName := [65, 32, 32, 32, 32, 32, 32, 32, 66, 32, 32];
            a != b && ShortName(a) == ShortName(b)
  {
    var a: RawName := [65, 46, 66, 32, 32, 32, 32, 32, 32, 32, 32];
    var b: RawName := [65, 32, 32, 32, 32, 32, 32, 32, 66, 32, 32];
    assert a[..8] == [65, 46, 66] + seq(5, i => SPACE) && a[8..] == [] + seq(3, i => SPACE);
    assert b[..8] == [65] + seq(7, i => SPACE) && b[8..] == [66] + seq(2, i => SPACE);
    TrimmedIs([65, 46, 66], 5);
    TrimmedIs([], 3);
    TrimmedIs([65], 7);
    TrimmedIs([66], 2);
    assert a[0] == b[0] && a[1] != b[1];
    assert ShortName(a) == [65, 46, 66];
    assert ShortName(b) == [65] + [DOT] + [66];
  }

  lemma {:induction false} TrimmedIs(field: seq<Byte>, spaces: nat)
    requires field == [] || field[|field| - 1] != SPACE
    ensures Trimmed(field + seq(spaces, i => SPACE)) == field
  {
    var padded := field + seq(spaces, i => SPACE);
    if spaces > 0 {
      assert padded[..|padded| - 1] == field + seq(spaces - 1, i => SPACE);
      TrimmedIs(field, spaces - 1);
    }
  }

  /** What a C caller reads from a character buffer. */
  function CString(buffer: seq<Byte>): seq<Byte>
  {
    if buffer == [] || buffer[0] == 0 then [] else [buffer[0]] + CString(buffer[1..])
  }

  lemma {:induction false} CStringIs(buffer: seq<Byte>, text: seq<Byte>)
    requires |text| < |buffer| && buffer[..|text|] == text && buffer[|text|] == 0 && 0 !in text
    ensures CString(buffer) == text
  {
    if text != [] {
      assert buffer[0] == text[0] && buffer[1..][..|text| - 1] == text[1..];
      CStringIs(buffer[1..], text[1..]);
    }
  }

  method TrimField(field: seq<Byte>) returns (length: nat)
    ensures length == TrimmedLength(field)
  {
    length := |field|;
    assert field[..length] == field;
    while length != 0 && field[length - 1] == SPACE
      invariant length <= |field| && TrimmedLength(field[..length]) == TrimmedLength(field)
    {
      assert field[..length][..length - 1] == field[..length - 1];
      length := length - 1;
    }
  }

  lemma {:induction false} CStringHasNoZero(buffer: seq<Byte>)
    ensures 0 !in CString(buffer)
  {
    if buffer != [] && buffer[0] != 0 {
      CStringHasNoZero(buffer[1..]);
    }
  }

  // Writes the name and its terminator into a 13-byte buffer. The name is read
  // back in full exactly when the field holds no NUL byte.
  method FormatShortName(entry: seq<Byte>, name: array<Byte>)
    requires |entry| >= 11 && name.Length == 13
    modifies name
    ensures var text := ShortName(entry[..11]);
            && name[..|text|] == text && name[|text|] == 0
            && (0 !in entry[..11] <==> CString(name[..]) == text)
  {
    hide TrimmedLength, CString;
    ghost var raw: RawName := entry[..11];
    assert raw[..8] == entry[..8] && raw[8..] == entry[8..11];
    var nameLength := TrimField(entry[..8]);
    var extensionLength := TrimField(entry[8..11]);
    var output := 0;
    var index := 0;
    while index < nameLength && output < 12
      invariant index == output <= nameLength
      invariant name[..output] == entry[..index]
    {
      name[output] := entry[index];
      output := output + 1;
      index := index + 1;
    }
    assert entry[..nameLength] == Trimmed(raw[..8]);
    if extensionLength != 0 && output < 12 {
      name[output] := DOT;
      output := output + 1;
      output := AppendExtension(entry, extensionLength, name, output);
      ExtensionPrefix(entry, extensionLength);
    }
    name[output] := 0;
    NameReadsBack(name[..], raw);
  }

  // The loop over the extension.
  method AppendExtension(entry: seq<Byte>, extensionLength: nat, name: array<Byte>, start: nat) returns (output: nat)
    requires |entry| >= 11 && extensionLength <= 3 && start <= 9 && name.Length == 13
    modifies name
    ensures output == start + extensionLength
    ensures name[..output] == old(name[..start]) + entry[8..8 + extensionLength]
  {
    var index := 0;
    output := start;
    while index < extensionLength && output < 12
      invariant index <= extensionLength && output == start + index
      invariant name[..output] == old(name[..start]) + entry[8..8 + index]
    {
      name[output] := entry[8 + index];
      output := output + 1;
      index := index + 1;
    }
  }

  lemma NameReadsBack(buffer: seq<Byte>, raw: RawName)
    requires var text := ShortName(raw);
             |text| < |buffer| && buffer[..|text|] == text && buffer[|text|] == 0
    ensures 0 !in raw <==> CString(buffer) == ShortName(raw)
  {
    hide ShortName, CString;
    ZeroInName(raw);
    CStringHasNoZero(buffer);
    if 0 !in raw {
      CStringIs(buffer, ShortName(raw));
    }
  }

  lemma ExtensionPrefix(entry: seq<Byte>, n: nat)
    requires |entry| >= 11 && n <= 3
    ensures entry[8..8 + n] == entry[8..11][..n] == entry[..11][8..][..n]
  {
  }

  // Trimming drops spaces only, so a NUL byte stays.
  lemma {:induction false} TrimmedKeeps(field: seq<Byte>, i: nat)
    requires i < |field| && field[i] != SPACE
    ensures field[i] in Trimmed(field)
  {
    if field[|field| - 1] == SPACE {
      TrimmedKeeps(field[..|field| - 1], i);
    }
  }

  lemma ZeroInName(raw: RawName)
    ensures 0 in raw <==> 0 in ShortName(raw)
  {
    forall i | 0 <= i < 11 && raw[i] == 0 ensures 0 in ShortName(raw) {
      if i < 8 {
        TrimmedKeeps(raw[..8], i);
      } else {
        TrimmedKeeps(raw[8..], i - 8);
      }
    }
  }

  // Emits the same characters to the console.
  method PrintShortName(entry: seq<Byte>) returns (out: seq<Byte>)
    requires |entry| >= 11
    ensures out == ShortName(entry[..11])
  {
    ghost var raw: RawName := entry[..11];
    assert raw[..8] == entry[..8] && raw[8..] == entry[8..11];
    var nameLength := TrimField(entry[..8]);
    var extensionLength := TrimField(entry[8..11]);
    out := [];
    for index := 0 to nameLength
      invariant out == entry[..index]
    {
      out := out + [entry[index]];
    }
    assert out == Trimmed(raw[..8]);
    if extensionLength != 0 {
      out := out + [DOT];
      ghost var stem := out;
      for index := 0 to extensionLength
        invariant out == stem + entry[8..8 + index]
      {
        assert entry[8..8 + index + 1] == entry[8..8 + index] + [entry[8 + index]];
        out := out + [entry[8 + index]];
      }
      ExtensionPrefix(entry, extensionLength);
    }
  }
}
