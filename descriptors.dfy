/**
 * Region descriptors `"<path>@<hex address>"` and the pool each one
 * configures.
 */
module Descriptors {
  import opened Wrappers
  import opened Bytes
  import opened Numerals
  import opened Pools

  /** `LLONG_MAX`: where `strtoll` saturates. */
  const LLONG_MAX: int := 0x7FFF_FFFF_FFFF_FFFF

  /** The position of the last occurrence of `c` in `s` (`std::string::rfind`). */
  function LastIndexOf(s: string, c: char): (r: Option<nat>)
    ensures r.None? ==> forall i :: 0 <= i < |s| ==> s[i] != c
    ensures r.Some? ==> r.value < |s| && s[r.value] == c
    ensures r.Some? ==> forall i :: r.value < i < |s| ==> s[i] != c
  {
    if s == [] then None
    else if s[|s| - 1] == c then Some(|s| - 1)
    else LastIndexOf(s[..|s| - 1], c)
  }

  /** The path and the address text of a descriptor: everything before and
      everything after its last `@`. */
  function SplitDescriptor(desc: string): (parts: (string, string))
    requires '@' in desc
  {
    var at := LastIndexOf(desc, '@').value;
    (desc[..at], desc[at + 1..])
  }

  /** Address text this model reads: hexadecimal digits, optionally after
      a `0x` or `0X` prefix. */
  predicate WellFormedAddress(text: string) {
    || AllHexDigits(text)
    || (|text| >= 2 && text[0] == '0' && (text[1] == 'x' || text[1] == 'X') && AllHexDigits(text[2..]))
  }

  /** `strtoll(text, NULL, 16)` on well-formed text, converted to `uint64_t`:
      values above `LLONG_MAX` saturate. */
  function ParseAddress(text: string): (a: U64)
    requires WellFormedAddress(text)
  {
    var digits := if AllHexDigits(text) then text else text[2..];
    var v := HexValue(digits);
    if v > LLONG_MAX then LLONG_MAX else v
  }

  /** The file system, as the contents of each readable file. */
  type Files = map<string, seq<Byte>>

  /** A descriptor the pool constructor accepts: it has an `@`, its address
      text is well formed, and it names a readable file. */
  predicate ValidDescriptor(desc: string, files: Files) {
    && '@' in desc
    && WellFormedAddress(SplitDescriptor(desc).1)
    && SplitDescriptor(desc).0 in files
    && |files[SplitDescriptor(desc).0]| < MAX_FILE_LENGTH
  }

  /** `getMemoryPool` with the `MemoryPool` constructor: the pool of the
      named file, mapped at the parsed address. */
  function GetMemoryPool(desc: string, files: Files): (p: MemoryPool)
    requires ValidDescriptor(desc, files)
    ensures p.Valid()
  {
    var (path, text) := SplitDescriptor(desc);
    var start := ParseAddress(text);
    var bytes := files[path];
    MemoryPool(path, start, (start + |bytes|) % U64_LIMIT, bytes)
  }

  /** The address follows the last `@`, so a path may itself contain `@`
      while the address text cannot. */
  lemma SplitRoundTrip(path: string, text: string)
    requires '@' !in text
    ensures '@' in path + "@" + text
    ensures SplitDescriptor(path + "@" + text) == (path, text)
  {
    var desc := path + "@" + text;
    assert desc[|path|] == '@';
    var at := LastIndexOf(desc, '@').value;
    assert forall i :: |path| < i < |desc| ==> desc[i] == text[i - |path| - 1];
    assert desc[..at] == path;
    assert desc[at + 1..] == text;
  }

  /** Printed hexadecimal, with or without `0x`, parses back to the value,
      saturated at `LLONG_MAX`. */
  lemma ParseAddressOfHex(v: nat)
    ensures WellFormedAddress(Hex(v)) && WellFormedAddress("0x" + Hex(v))
    ensures ParseAddress(Hex(v)) == if v <= LLONG_MAX then v else LLONG_MAX
    ensures ParseAddress("0x" + Hex(v)) == if v <= LLONG_MAX then v else LLONG_MAX
  {
    HexRoundTrip(v);
    var t := "0x" + Hex(v);
    assert t[2..] == Hex(v);
    assert !AllHexDigits(t) by {
      assert HexDigitValue(t[1]).None?;
    }
  }

  /** Printed hexadecimal with a `0x` prefix contains no `@`. */
  lemma HexHasNoAt(a: nat)
    ensures '@' !in "0x" + Hex(a)
  {
    var text := "0x" + Hex(a);
    assert forall i :: 2 <= i < |text| ==> text[i] == Hex(a)[i - 2];
    assert forall i :: 0 <= i < |Hex(a)| ==> HexDigitValue(Hex(a)[i]).Some?;
  }

  /** A descriptor written as `path@0x<hex>` splits into the path and the
      address text. */
  lemma SplitOfHexDescriptor(path: string, a: nat)
    ensures '@' in path + "@0x" + Hex(a)
    ensures SplitDescriptor(path + "@0x" + Hex(a)) == (path, "0x" + Hex(a))
  {
    HexHasNoAt(a);
    assert path + "@0x" + Hex(a) == path + "@" + ("0x" + Hex(a));
    SplitRoundTrip(path, "0x" + Hex(a));
  }

  /** A descriptor written as `path@0x<hex>` maps that file at that address:
      it contains exactly the addresses from the start up to the start plus
      the file length. */
  lemma PoolOfDescriptor(path: string, a: nat, files: Files)
    requires a <= LLONG_MAX && path in files && |files[path]| < MAX_FILE_LENGTH
    ensures ValidDescriptor(path + "@0x" + Hex(a), files)
    ensures GetMemoryPool(path + "@0x" + Hex(a), files).path == path
    ensures GetMemoryPool(path + "@0x" + Hex(a), files).start == a
    ensures GetMemoryPool(path + "@0x" + Hex(a), files).bytes == files[path]
    ensures forall addr :: GetMemoryPool(path + "@0x" + Hex(a), files).Inside(addr) <==> a <= addr < a + |files[path]|
  {
    SplitOfHexDescriptor(path, a);
    ParseAddressOfHex(a);
    var p := GetMemoryPool(path + "@0x" + Hex(a), files);
    forall addr ensures p.Inside(addr) <==> a <= addr < a + |files[path]| {
      p.InsideIsFileOffset(addr);
    }
  }
}
