/** Looking a file up in a USTAR archive in memory. */
module Ustar {
  import opened PageTable
  import opened Octal

  const BLOCK: nat := 512
  const NAME_SIZE: nat := 100
  const SIZE_OFFSET: nat := 124
  const PREFIX_OFFSET: nat := 345
  const PREFIX_SIZE: nat := 155

  // ----- headers -----

  /** The C string at an address: the characters before the first NUL. */
  function StringAt(mem: seq<char>, a: nat): seq<char>
    decreases |mem| - a
  {
    if a >= |mem| || mem[a] == '\0' then [] else [mem[a]] + StringAt(mem, a + 1)
  }

  /** `ustar_is_zeroed`: all 512 bytes of a header are zero. */
  predicate Zeroed(mem: seq<char>, a: nat)
    requires a + BLOCK <= |mem|
  {
    forall i :: a <= i < a + BLOCK ==> mem[i] == '\0'
  }

  /** The decoded size field. */
  function SizeAt(mem: seq<char>, a: nat): int
    requires a + BLOCK <= |mem|
  {
    ToInt32(Sum(mem[a + SIZE_OFFSET..a + SIZE_OFFSET + 11]))
  }

  /** C division truncates towards zero. */
  function TruncatedDiv(x: int, y: nat): int
    requires y > 0
  {
    if x >= 0 then x / y else -(-x / y)
  }

  /** How far the walk advances past a file of this size, in 32-bit signed arithmetic. */
  function Advance(size: int): int {
    ToInt32((TruncatedDiv(ToInt32(size + 511), BLOCK) + 1) * BLOCK)
  }

  /** The header after the one at a. */
  function NextAt(mem: seq<char>, a: nat): int
    requires a + BLOCK <= |mem|
  {
    a + Advance(SizeAt(mem, a))
  }

  /** The headers that a walk from the first of them visits. */
  ghost predicate Walked(mem: seq<char>, hs: seq<nat>) {
    && hs != []
    && (forall i :: 0 <= i < |hs| ==> hs[i] + BLOCK <= |mem|)
    && (forall i :: 0 <= i < |hs| - 1 ==> !Zeroed(mem, hs[i]) && NextAt(mem, hs[i]) == hs[i + 1])
  }

  /** The headers of a walk up to a zeroed one. */
  ghost predicate Headers(mem: seq<char>, hs: seq<nat>) { Walked(mem, hs) && Zeroed(mem, hs[|hs| - 1]) }

  /** The headers of a walk up to a zeroed one or one with this name. */
  ghost predicate Ends(mem: seq<char>, hs: seq<nat>, name: seq<char>) {
    Walked(mem, hs) && (Zeroed(mem, hs[|hs| - 1]) || StringAt(mem, hs[|hs| - 1]) == name)
  }

  /** The headers of files among them. */
  ghost function FileHeaders(mem: seq<char>, hs: seq<nat>): seq<nat>
    requires Walked(mem, hs)
  {
    if Zeroed(mem, hs[|hs| - 1]) then hs[..|hs| - 1] else hs
  }

  /** The index of the first header with this name. */
  function FirstNamed(mem: seq<char>, hs: seq<nat>, name: seq<char>): (i: nat)
    ensures i <= |hs|
    ensures i < |hs| ==> StringAt(mem, hs[i]) == name
    ensures forall j :: 0 <= j < i ==> StringAt(mem, hs[j]) != name
    decreases |hs|
  {
    if hs == [] || StringAt(mem, hs[0]) == name then 0 else 1 + FirstNamed(mem, hs[1..], name)
  }

  // ----- lookups -----

  function Zeros(n: nat): (z: seq<char>)
    ensures |z| == n && forall i :: 0 <= i < n ==> z[i] == '\0'
  {
    seq(n, _ => '\0')
  }

  /** `ustar_is_zeroed`, which looks at 64 words of 8 bytes. */
  method IsZeroed(mem: seq<char>, a: nat) returns (zeroed: bool)
    requires a + BLOCK <= |mem|
    ensures zeroed == Zeroed(mem, a)
  {
    var counter := 0;
    while counter < 64
      invariant 0 <= counter <= 64
      invariant forall i :: a <= i < a + 8 * counter ==> mem[i] == '\0'
    {
      var word := mem[a + 8 * counter..a + 8 * counter + 8];
      if word != Zeros(8) {
        ghost var k :| 0 <= k < 8 && word[k] != '\0';
        assert mem[a + 8 * counter + k] != '\0';
        return false;
      }
      forall i | a + 8 * counter <= i < a + 8 * counter + 8 ensures mem[i] == '\0' {
        assert mem[i] == word[i - a - 8 * counter];
      }
      counter := counter + 1;
    }
    return true;
  }

  /** The size of the file at a header and the header behind it. */
  method Following(mem: seq<char>, a: nat) returns (next: int)
    requires a + BLOCK <= |mem|
    ensures next == NextAt(mem, a)
  {
    var field := mem[a + SIZE_OFFSET..a + SIZE_OFFSET + 12];
    var filesize := OctasciiToDec(field, 12);
    assert field[..11] == mem[a + SIZE_OFFSET..a + SIZE_OFFSET + 11];
    next := a + Advance(filesize);
  }

  lemma FirstNamedAt(mem: seq<char>, hs: seq<nat>, name: seq<char>, k: nat)
    requires k < |hs| && StringAt(mem, hs[k]) == name
    requires forall j :: 0 <= j < k ==> StringAt(mem, hs[j]) != name
    ensures FirstNamed(mem, hs, name) == k
  {}

  /** `ustar_find`: the number of the first header with this name, and the header itself. */
  method Find(mem: seq<char>, name: seq<char>, root: nat, ghost hs: seq<nat>) returns (counter: int, item: Option<nat>)
    requires Ends(mem, hs, name) && hs[0] == root
    ensures var files := FileHeaders(mem, hs);
      var i := FirstNamed(mem, files, name);
      if i < |files| then counter == i && item == Some(hs[i]) else counter == -1 && item == None
  {
    ghost var files := FileHeaders(mem, hs);
    var at, zeroItems := root, 0;
    ghost var k := 0;
    counter := 0;
    while zeroItems < 2
      invariant 0 <= k < |hs| && at == hs[k] && 0 <= zeroItems <= 2
      invariant zeroItems == 0 ==> counter == k
      invariant zeroItems > 0 ==> k == |hs| - 1 && Zeroed(mem, at)
      invariant forall j :: 0 <= j < k ==> StringAt(mem, hs[j]) != name
      decreases |hs| - k, 2 - zeroItems
    {
      var zeroed := IsZeroed(mem, at);
      if zeroed {
        zeroItems := zeroItems + 1;
      } else {
        if StringAt(mem, at) == name {
          FirstNamedAt(mem, files, name, k);
          return counter, Some(at);
        }
        var next := Following(mem, at);
        k := k + 1;
        zeroItems := 0;
        at := next;
      }
      counter := counter + 1;
    }
    return -1, None;
  }

  /** `ustar_seek`: the first header with this name. */
  method Seek(mem: seq<char>, name: seq<char>, root: nat, ghost hs: seq<nat>) returns (item: Option<nat>)
    requires Ends(mem, hs, name) && hs[0] == root
    ensures var files := FileHeaders(mem, hs);
      var i := FirstNamed(mem, files, name);
      item == if i < |files| then Some(hs[i]) else None
  {
    ghost var files := FileHeaders(mem, hs);
    var at, zeroItems := root, 0;
    ghost var k := 0;
    while zeroItems < 2
      invariant 0 <= k < |hs| && at == hs[k] && 0 <= zeroItems <= 2
      invariant zeroItems > 0 ==> k == |hs| - 1 && Zeroed(mem, at)
      invariant forall j :: 0 <= j < k ==> StringAt(mem, hs[j]) != name
      decreases |hs| - k, 2 - zeroItems
    {
      var zeroed := IsZeroed(mem, at);
      if zeroed {
        zeroItems := zeroItems + 1;
      } else {
        if StringAt(mem, at) == name {
          FirstNamedAt(mem, files, name, k);
          return Some(at);
        }
        var next := Following(mem, at);
        k := k + 1;
        at := next;
      }
    }
    return None;
  }

  // ----- archives -----

  datatype File = File(name: seq<char>, data: seq<char>)

  /** The largest size that the walk gets past. */
  const MAX_SIZE: nat := 0x8000_0000 - 1024

  ghost predicate FileOk(f: File) { f.name != [] && |f.data| <= MAX_SIZE }

  function DataBlocks(size: nat): nat { (size + 511) / 512 }

  lemma DataFits(size: nat)
    ensures size <= DataBlocks(size) * BLOCK
  {}

  /** A field of a header that holds a string: up to the first NUL, or the whole field if there is none. */
  function Field(h: seq<char>, offset: nat, size: nat): seq<char>
    requires offset + size <= |h|
  {
    StringAt(h[offset..offset + size], 0)
  }

  /** The name of a file as the format defines it: the prefix, if there is one, a slash and the name. */
  function FullName(h: seq<char>): seq<char>
    requires |h| == BLOCK
  {
    var prefix, name := Field(h, PREFIX_OFFSET, PREFIX_SIZE), Field(h, 0, NAME_SIZE);
    if prefix == [] then name else prefix + "/" + name
  }

  /** There is no prefix, and the name is closed by a NUL, of its own field or of the mode field. */
  predicate Readable(h: seq<char>)
    requires |h| == BLOCK
  {
    Field(h, PREFIX_OFFSET, PREFIX_SIZE) == [] && (|Field(h, 0, NAME_SIZE)| < NAME_SIZE || h[NAME_SIZE] == '\0')
  }

  /** A header of this file, the other fields of which may hold anything. */
  ghost predicate IsHeader(h: seq<char>, f: File) {
    |h| == BLOCK && FullName(h) == f.name && Sum(h[SIZE_OFFSET..SIZE_OFFSET + 11]) == |f.data|
  }

  /** What stands in the mode field ends within the header and, as in every octal field, holds no slash. */
  ghost predicate ModeOk(h: seq<char>)
    requires |h| == BLOCK
  {
    '/' !in StringAt(h, NAME_SIZE) && |StringAt(h, NAME_SIZE)| < BLOCK - NAME_SIZE
  }

  /** A header and the data, in whole blocks. */
  ghost predicate IsEntry(e: seq<char>, f: File) {
    && |e| == BLOCK + DataBlocks(|f.data|) * BLOCK && |f.data| <= |e| - BLOCK
    && IsHeader(e[..BLOCK], f) && e[BLOCK..BLOCK + |f.data|] == f.data
  }

  /** Entries one after the other, closed by two zeroed blocks. */
  function Archive(es: seq<seq<char>>): seq<char> {
    if es == [] then Zeros(2 * BLOCK) else es[0] + Archive(es[1..])
  }

  /** Where the headers of an archive at address a stand, the closing one included. */
  function HeadersFrom(es: seq<seq<char>>, a: nat): (hs: seq<nat>)
    ensures |hs| == |es| + 1 && hs[0] == a
  {
    if es == [] then [a] else [a] + HeadersFrom(es[1..], a + |es[0]|)
  }

  ghost predicate AreEntries(es: seq<seq<char>>, files: seq<File>) {
    |es| == |files| && forall i :: 0 <= i < |files| ==> FileOk(files[i]) && IsEntry(es[i], files[i])
  }

  /** There is an entry for every file with a name of at most 100 bytes, and the lookup can read it. */
  lemma EntryExists(f: File) returns (e: seq<char>)
    requires FileOk(f) && |f.name| <= NAME_SIZE && NoNul(f.name)
    ensures IsEntry(e, f) && Readable(e[..BLOCK])
  {
    var h := HeaderExists(f.name, Zeros(8), [], |f.data|);
    assert h[NAME_SIZE] == h[NAME_SIZE..NAME_SIZE + 8][0];
    e := EntryWith(h, f);
  }

  lemma EntryWith(h: seq<char>, f: File) returns (e: seq<char>)
    requires IsHeader(h, f)
    ensures IsEntry(e, f) && e[..BLOCK] == h
  {
    DataFits(|f.data|);
    var padding := Zeros(DataBlocks(|f.data|) * BLOCK - |f.data|);
    e := h + f.data + padding;
    Slices(h, f.data, padding);
    assert e[..BLOCK] == h;
  }

  predicate NoNul(s: seq<char>) { forall i :: 0 <= i < |s| ==> s[i] != '\0' }

  /** There is a header with this name, mode, prefix and size. */
  lemma HeaderExists(name: seq<char>, mode: seq<char>, prefix: seq<char>, size: nat) returns (h: seq<char>)
    requires |name| <= NAME_SIZE && NoNul(name) && |mode| == 8
    requires |prefix| <= PREFIX_SIZE && NoNul(prefix) && size < 0x8000_0000
    ensures |h| == BLOCK && Sum(h[SIZE_OFFSET..SIZE_OFFSET + 11]) == size && h[NAME_SIZE..NAME_SIZE + 8] == mode
    ensures Field(h, 0, NAME_SIZE) == name && Field(h, PREFIX_OFFSET, PREFIX_SIZE) == prefix
  {
    Pow8At11();
    SumOfPadded(size, 11);
    var a, d, p := Filled(name, NAME_SIZE), Padded(size, 11), Filled(prefix, PREFIX_SIZE);
    h := HeaderOf(a, mode, d, p);
    HeaderParts(a, mode, d, p);
    FieldIs(a, name);
    FieldIs(p, prefix);
  }

  /** A string in a field of n bytes, filled up with zeros. */
  function Filled(s: seq<char>, n: nat): (r: seq<char>)
    requires |s| <= n
    ensures |r| == n && (forall i :: 0 <= i < |s| ==> r[i] == s[i]) && forall i :: |s| <= i < n ==> r[i] == '\0'
  {
    s + Zeros(n - |s|)
  }

  function HeaderOf(name: seq<char>, mode: seq<char>, size: seq<char>, prefix: seq<char>): (h: seq<char>)
    requires |name| == NAME_SIZE && |mode| == 8 && |size| == 11 && |prefix| == PREFIX_SIZE
    ensures |h| == BLOCK
  {
    (name + (mode + Zeros(16))) + ((size + Zeros(210)) + (prefix + Zeros(12)))
  }

  lemma LeftSlice(x: seq<char>, y: seq<char>, i: nat, j: nat)
    requires i <= j <= |x|
    ensures (x + y)[i..j] == x[i..j]
  {}

  lemma RightSlice(x: seq<char>, y: seq<char>, i: nat, j: nat)
    requires |x| <= i <= j <= |x| + |y|
    ensures (x + y)[i..j] == y[i - |x|..j - |x|]
  {}

  lemma HeaderParts(name: seq<char>, mode: seq<char>, size: seq<char>, prefix: seq<char>)
    requires |name| == NAME_SIZE && |mode| == 8 && |size| == 11 && |prefix| == PREFIX_SIZE
    ensures var h := HeaderOf(name, mode, size, prefix);
      && h[0..NAME_SIZE] == name && h[NAME_SIZE..NAME_SIZE + 8] == mode
      && h[SIZE_OFFSET..SIZE_OFFSET + 11] == size && h[PREFIX_OFFSET..PREFIX_OFFSET + PREFIX_SIZE] == prefix
  {
    FrontParts(name, mode + Zeros(16), (size + Zeros(210)) + (prefix + Zeros(12)));
    LeftSlice(mode, Zeros(16), 0, 8);
    BackParts(name + (mode + Zeros(16)), size + Zeros(210), prefix + Zeros(12));
    LeftSlice(size, Zeros(210), 0, 11);
    LeftSlice(prefix, Zeros(12), 0, PREFIX_SIZE);
  }

  lemma FrontParts(x: seq<char>, y: seq<char>, z: seq<char>)
    requires |x| == NAME_SIZE && |y| == 24
    ensures ((x + y) + z)[0..NAME_SIZE] == x && ((x + y) + z)[NAME_SIZE..NAME_SIZE + 8] == y[0..8]
  {
    LeftSlice(x + y, z, 0, NAME_SIZE);
    LeftSlice(x + y, z, NAME_SIZE, NAME_SIZE + 8);
    RightSlice(x, y, NAME_SIZE, NAME_SIZE + 8);
  }

  lemma BackParts(x: seq<char>, y: seq<char>, z: seq<char>)
    requires |x| == SIZE_OFFSET && |y| == 221 && |z| == 167
    ensures (x + (y + z))[SIZE_OFFSET..SIZE_OFFSET + 11] == y[0..11]
    ensures (x + (y + z))[PREFIX_OFFSET..PREFIX_OFFSET + PREFIX_SIZE] == z[0..PREFIX_SIZE]
  {
    RightSlice(x, y + z, SIZE_OFFSET, SIZE_OFFSET + 11);
    LeftSlice(y, z, 0, 11);
    RightSlice(x, y + z, PREFIX_OFFSET, PREFIX_OFFSET + PREFIX_SIZE);
    RightSlice(y, z, 221, 221 + PREFIX_SIZE);
  }

  lemma FieldIs(field: seq<char>, name: seq<char>)
    requires |name| <= |field| && forall i :: 0 <= i < |name| ==> field[i] == name[i] && name[i] != '\0'
    requires |name| < |field| ==> field[|name|] == '\0'
    ensures StringAt(field, 0) == name
  {
    StringIs(field, 0, name);
  }

  lemma Slices(x: seq<char>, y: seq<char>, z: seq<char>)
    ensures (x + y + z)[|x|..|x| + |y|] == y
  {}

  lemma SliceOfSlice(s: seq<char>, a: nat, n: nat, i: nat, j: nat)
    requires a + n <= |s| && i <= j <= n
    ensures s[a..a + n][i..j] == s[a + i..a + j]
  {
    var t := s[a..a + n];
    var x, y := t[i..j], s[a + i..a + j];
    forall k | 0 <= k < j - i ensures x[k] == y[k] {
      assert x[k] == t[i + k] == s[a + i + k];
    }
  }

  lemma {:induction false} StringIs(mem: seq<char>, a: nat, name: seq<char>)
    requires a + |name| <= |mem| && (a + |name| < |mem| ==> mem[a + |name|] == '\0')
    requires forall i :: 0 <= i < |name| ==> mem[a + i] == name[i] && name[i] != '\0'
    ensures StringAt(mem, a) == name
    decreases |name|
  {
    if name != [] {
      var rest := name[1..];
      forall i | 0 <= i < |rest| ensures mem[a + 1 + i] == rest[i] && rest[i] != '\0' {
        assert mem[a + (i + 1)] == name[i + 1];
      }
      StringIs(mem, a + 1, rest);
      assert mem[a + 0] == name[0];
      assert name == [name[0]] + rest;
    }
  }

  // ----- names -----

  /** The string at an address is the one in the first n bytes, and if no NUL is among them it runs on
      into what follows. */
  lemma {:induction false} StringRunsOn(mem: seq<char>, a: nat, n: nat)
    requires a + n <= |mem|
    ensures var t := StringAt(mem[a..a + n], 0);
      |t| <= n && StringAt(mem, a) == if |t| < n then t else t + StringAt(mem, a + n)
    decreases n
  {
    var s := mem[a..a + n];
    if n > 0 && mem[a] != '\0' {
      StringRunsOn(mem, a + 1, n - 1);
      StringOfRest(s);
      assert s[1..] == mem[a + 1..a + 1 + (n - 1)];
      assert s[0] == mem[a];
    }
  }

  lemma StringOfRest(s: seq<char>)
    requires s != [] && s[0] != '\0'
    ensures StringAt(s, 0) == [s[0]] + StringAt(s[1..], 0)
  {
    StringShift(s, 1, 0);
  }

  lemma {:induction false} StringShift(s: seq<char>, k: nat, a: nat)
    requires k <= |s|
    ensures StringAt(s[k..], a) == StringAt(s, k + a)
    decreases |s| - k - a
  {
    if k + a < |s| && s[k + a] != '\0' { StringShift(s, k, a + 1); }
  }

  /** The lookup reads the full name of a file exactly if its header has no prefix and its name is closed
      by a NUL: a name that fills its field runs on into the mode field, which, like every octal field,
      holds no slash. */
  lemma NameReadIff(mem: seq<char>, a: nat)
    requires a + BLOCK <= |mem|
    ensures '/' !in StringAt(mem, a + NAME_SIZE) ==>
      (StringAt(mem, a) == FullName(mem[a..a + BLOCK]) <==> Readable(mem[a..a + BLOCK]))
    ensures Readable(mem[a..a + BLOCK]) ==> StringAt(mem, a) == FullName(mem[a..a + BLOCK])
  {
    var h := mem[a..a + BLOCK];
    var prefix, name, more := Field(h, PREFIX_OFFSET, PREFIX_SIZE), Field(h, 0, NAME_SIZE),
      StringAt(mem, a + NAME_SIZE);
    SliceOfSlice(mem, a, BLOCK, 0, NAME_SIZE);
    StringRunsOn(mem, a, NAME_SIZE);
    assert h[NAME_SIZE] == mem[a + NAME_SIZE];
    assert more == [] <==> mem[a + NAME_SIZE] == '\0';
    NamesAgreeIff(prefix, name, more, StringAt(mem, a));
  }

  lemma NamesAgreeIff(prefix: seq<char>, name: seq<char>, more: seq<char>, read: seq<char>)
    requires read == if |name| < NAME_SIZE then name else name + more
    ensures var full := if prefix == [] then name else prefix + "/" + name;
      && ('/' !in more ==> (read == full <==> prefix == [] && (|name| < NAME_SIZE || more == [])))
      && (prefix == [] && (|name| < NAME_SIZE || more == []) ==> read == full)
  {
    if prefix != [] && '/' !in more { SlashTells(prefix, name, more); }
    if prefix == [] && more != [] { assert |name + more| > |name|; }
  }

  /** A prefix and its slash cannot come out of a name that runs on without a slash. */
  lemma SlashTells(prefix: seq<char>, name: seq<char>, more: seq<char>)
    requires prefix != [] && '/' !in more
    ensures prefix + "/" + name != name + more && prefix + "/" + name != name
  {
    assert multiset(prefix + "/" + name)['/'] == multiset(prefix)['/'] + 1 + multiset(name)['/'];
    assert multiset(name + more)['/'] == multiset(name)['/'] + multiset(more)['/'];
    assert '/' !in multiset(more);
    assert |prefix + "/" + name| > |name|;
  }

  /** The string of the mode field is the same in memory and in the header alone. */
  lemma {:induction false} StringInside(mem: seq<char>, a: nat, n: nat, i: nat)
    requires a + n <= |mem| && i <= n && |StringAt(mem[a..a + n], i)| < n - i
    ensures StringAt(mem, a + i) == StringAt(mem[a..a + n], i)
    decreases n - i
  {
    var h := mem[a..a + n];
    assert h[i] == mem[a + i];
    if h[i] != '\0' { StringInside(mem, a, n, i + 1); }
  }

  /** What an entry in memory decodes to, but for its name. */
  ghost predicate Decodes(mem: seq<char>, a: nat, f: File) {
    && a + BLOCK + |f.data| <= |mem|
    && !Zeroed(mem, a)
    && SizeAt(mem, a) == |f.data|
    && mem[a + BLOCK..a + BLOCK + |f.data|] == f.data
  }

  /** The name is read right if the header is readable, and only then if its mode field is in order. */
  ghost predicate NameDecodes(mem: seq<char>, a: nat, h: seq<char>, f: File)
    requires |h| == BLOCK
  {
    && (Readable(h) ==> StringAt(mem, a) == f.name)
    && (ModeOk(h) ==> (StringAt(mem, a) == f.name <==> Readable(h)))
  }

  lemma ZeroedHasNoName(mem: seq<char>, a: nat)
    requires a + BLOCK <= |mem|
    ensures Zeroed(mem, a) ==> FullName(mem[a..a + BLOCK]) == []
  {
    var h := mem[a..a + BLOCK];
    var name, prefix := h[0..NAME_SIZE], h[PREFIX_OFFSET..PREFIX_OFFSET + PREFIX_SIZE];
    assert name[0] == mem[a] && prefix[0] == mem[a + PREFIX_OFFSET];
  }

  lemma HeaderDecodes(mem: seq<char>, a: nat, h: seq<char>, f: File)
    requires FileOk(f) && a + BLOCK <= |mem| && h == mem[a..a + BLOCK] && IsHeader(h, f)
    ensures !Zeroed(mem, a) && SizeAt(mem, a) == |f.data| && NameDecodes(mem, a, h, f)
  {
    ZeroedHasNoName(mem, a);
    NameReadIff(mem, a);
    if ModeOk(h) { StringInside(mem, a, BLOCK, NAME_SIZE); }
    SliceOfSlice(mem, a, BLOCK, SIZE_OFFSET, SIZE_OFFSET + 11);
  }

  lemma EntryDecodes(mem: seq<char>, a: nat, e: seq<char>, f: File)
    requires FileOk(f) && IsEntry(e, f) && a + |e| <= |mem| && mem[a..a + |e|] == e
    ensures Decodes(mem, a, f) && NameDecodes(mem, a, e[..BLOCK], f) && NextAt(mem, a) == a + |e|
  {
    assert mem[a..a + BLOCK] == e[..BLOCK] by { SliceOfSlice(mem, a, |e|, 0, BLOCK); }
    HeaderDecodes(mem, a, e[..BLOCK], f);
    SliceOfSlice(mem, a, |e|, BLOCK, BLOCK + |f.data|);
    NextAfter(mem, a, |f.data|);
  }

  lemma AdvanceIs(size: nat)
    requires size <= MAX_SIZE
    ensures Advance(size) == BLOCK + DataBlocks(size) * BLOCK
  {}

  lemma NextAfter(mem: seq<char>, a: nat, size: nat)
    requires a + BLOCK <= |mem| && SizeAt(mem, a) == size <= MAX_SIZE
    ensures NextAt(mem, a) == a + BLOCK + DataBlocks(size) * BLOCK
  {
    AdvanceIs(size);
  }

  /** The walk goes on to the header behind the data exactly if the size that the field spells is at most
      2^31 - 1024: beyond it the 32-bit arithmetic overflows. */
  lemma NextReachesIff(mem: seq<char>, a: nat, size: nat)
    requires a + BLOCK <= |mem| && Sum(mem[a + SIZE_OFFSET..a + SIZE_OFFSET + 11]) == size
    ensures NextAt(mem, a) == a + BLOCK + DataBlocks(size) * BLOCK <==> size <= MAX_SIZE
  {
    if size <= MAX_SIZE {
      AdvanceIs(size);
    } else {
      AdvanceBounded(SizeAt(mem, a));
      FarBehind(size);
    }
  }

  lemma FarBehind(size: nat)
    requires size > MAX_SIZE
    ensures BLOCK + DataBlocks(size) * BLOCK >= 0x8000_0000
  {}

  lemma AdvanceBounded(size: int)
    ensures Advance(size) < 0x8000_0000
  {}

  ghost predicate AllDecode(mem: seq<char>, hs: seq<nat>, es: seq<seq<char>>, files: seq<File>) {
    && |files| == |es| < |hs|
    && forall i :: 0 <= i < |files| ==>
        |es[i]| >= BLOCK && Decodes(mem, hs[i], files[i]) && NameDecodes(mem, hs[i], es[i][..BLOCK], files[i])
  }

  /** The walk over an archive in memory visits one header for each file, and each decodes to the size and
      the contents of its file, and to its name if the header is readable. */
  lemma {:induction false} ArchiveDecodes(mem: seq<char>, a: nat, es: seq<seq<char>>, files: seq<File>)
    requires AreEntries(es, files) && a <= |mem| && mem[a..] == Archive(es)
    ensures Headers(mem, HeadersFrom(es, a)) && AllDecode(mem, HeadersFrom(es, a), es, files)
    decreases |files|
  {
    var hs := HeadersFrom(es, a);
    if es == [] {
      EndOfArchive(mem, a);
      assert hs == [a];
    } else {
      var e, f, es1, files1 := es[0], files[0], es[1..], files[1..];
      EntriesRest(es, files);
      var b := SplitAfter(mem, a, e, Archive(es1));
      var tail := HeadersFrom(es1, b);
      assert hs == [a] + tail && files == [f] + files1 && es == [e] + es1;
      ArchiveDecodes(mem, b, es1, files1);
      ArchiveStep(mem, a, e, f, tail, es1, files1);
    }
  }

  lemma EndOfArchive(mem: seq<char>, a: nat)
    requires a <= |mem| && mem[a..] == Zeros(2 * BLOCK)
    ensures Headers(mem, [a])
  {
    var z := mem[a..];
    forall i | a <= i < a + BLOCK ensures mem[i] == '\0' { assert mem[i] == z[i - a]; }
  }

  lemma EntriesRest(es: seq<seq<char>>, files: seq<File>)
    requires AreEntries(es, files) && es != []
    ensures FileOk(files[0]) && IsEntry(es[0], files[0]) && AreEntries(es[1..], files[1..])
  {}

  lemma ArchiveStep(mem: seq<char>, a: nat, e: seq<char>, f: File, tail: seq<nat>, es: seq<seq<char>>, rest: seq<File>)
    requires FileOk(f) && IsEntry(e, f) && a + |e| <= |mem| && mem[a..a + |e|] == e
    requires Headers(mem, tail) && tail[0] == a + |e| && AllDecode(mem, tail, es, rest)
    ensures Headers(mem, [a] + tail) && AllDecode(mem, [a] + tail, [e] + es, [f] + rest)
  {
    EntryDecodes(mem, a, e, f);
    HeadersCons(mem, a, tail);
    DecodesCons(mem, a, tail, e, es, f, rest);
  }

  lemma SplitAfter(mem: seq<char>, a: nat, x: seq<char>, y: seq<char>) returns (b: nat)
    requires a <= |mem| && mem[a..] == x + y
    ensures b == a + |x| <= |mem| && mem[a..b] == x && mem[b..] == y
  {
    b := a + |x|;
    assert mem[a..b] == mem[a..][..|x|];
    assert mem[b..] == mem[a..][|x|..];
  }

  lemma HeadersCons(mem: seq<char>, a: nat, tail: seq<nat>)
    requires Headers(mem, tail) && a + BLOCK <= |mem| && !Zeroed(mem, a) && NextAt(mem, a) == tail[0]
    ensures Headers(mem, [a] + tail)
  {
    var hs := [a] + tail;
    forall i | 0 <= i < |hs| - 1 ensures !Zeroed(mem, hs[i]) && NextAt(mem, hs[i]) == hs[i + 1] {
      if i > 0 { assert hs[i] == tail[i - 1] && hs[i + 1] == tail[i]; }
    }
  }

  lemma DecodesCons(mem: seq<char>, a: nat, tail: seq<nat>, e: seq<char>, es: seq<seq<char>>, f: File, rest: seq<File>)
    requires |e| >= BLOCK && Decodes(mem, a, f) && NameDecodes(mem, a, e[..BLOCK], f) && AllDecode(mem, tail, es, rest)
    ensures AllDecode(mem, [a] + tail, [e] + es, [f] + rest)
  {
    var hs, es1, files := [a] + tail, [e] + es, [f] + rest;
    forall i | 0 <= i < |files|
      ensures |es1[i]| >= BLOCK && Decodes(mem, hs[i], files[i]) && NameDecodes(mem, hs[i], es1[i][..BLOCK], files[i])
    {
      if i > 0 { assert hs[i] == tail[i - 1] && files[i] == rest[i - 1] && es1[i] == es[i - 1]; }
    }
  }

  /** The index of the first file with this name. */
  function FirstFile(files: seq<File>, name: seq<char>): nat
    decreases |files|
  {
    if files == [] || files[0].name == name then 0 else 1 + FirstFile(files[1..], name)
  }

  ghost predicate AllReadable(es: seq<seq<char>>) {
    forall i :: 0 <= i < |es| ==> |es[i]| >= BLOCK && Readable(es[i][..BLOCK])
  }

  /** Looking a name up in an archive of readable headers gives the header of the first file of that name,
      whose size and contents follow it, or nothing if no file has that name. */
  lemma LookupFindsFirstFile(es: seq<seq<char>>, files: seq<File>, name: seq<char>)
    requires AreEntries(es, files) && AllReadable(es)
    ensures var mem, hs, i := Archive(es), HeadersFrom(es, 0), FirstFile(files, name);
      && Headers(mem, hs)
      && FirstNamed(mem, hs[..|hs| - 1], name) == i
      && (i < |files| ==> Decodes(mem, hs[i], files[i]) && files[i].name == name)
      && (i >= |files| ==> forall j :: 0 <= j < |files| ==> files[j].name != name)
  {
    assert Archive(es)[0..] == Archive(es);
    ArchiveDecodes(Archive(es), 0, es, files);
    LookupInWalk(Archive(es), HeadersFrom(es, 0), es, files, name);
  }

  lemma LookupInWalk(mem: seq<char>, hs: seq<nat>, es: seq<seq<char>>, files: seq<File>, name: seq<char>)
    requires AllDecode(mem, hs, es, files) && AllReadable(es) && |hs| == |files| + 1
    ensures var i := FirstFile(files, name);
      && FirstNamed(mem, hs[..|hs| - 1], name) == i
      && (i < |files| ==> Decodes(mem, hs[i], files[i]) && files[i].name == name)
      && (i >= |files| ==> forall j :: 0 <= j < |files| ==> files[j].name != name)
  {
    var front := hs[..|hs| - 1];
    forall i | 0 <= i < |files| ensures StringAt(mem, front[i]) == files[i].name {
      assert Decodes(mem, hs[i], files[i]) && NameDecodes(mem, hs[i], es[i][..BLOCK], files[i]);
    }
    SameFirst(mem, front, files, name);
  }

  lemma {:induction false} SameFirst(mem: seq<char>, hs: seq<nat>, files: seq<File>, name: seq<char>)
    requires |hs| == |files| && forall i :: 0 <= i < |files| ==> StringAt(mem, hs[i]) == files[i].name
    ensures FirstNamed(mem, hs, name) == FirstFile(files, name) <= |files|
    ensures FirstFile(files, name) < |files| ==> files[FirstFile(files, name)].name == name
    ensures FirstFile(files, name) == |files| ==> forall j :: 0 <= j < |files| ==> files[j].name != name
    decreases |files|
  {
    if files != [] && files[0].name != name {
      SameFirst(mem, hs[1..], files[1..], name);
      assert forall j :: 1 <= j < |files| ==> files[1..][j - 1] == files[j];
    }
  }

  // ----- when the lookup is right -----

  ghost predicate DistinctNames(files: seq<File>) {
    forall i, j :: 0 <= i < j < |files| ==> files[i].name != files[j].name
  }

  /** What the lookup of a name gives: an index into the files, or their number for none. */
  function Lookup(es: seq<seq<char>>, name: seq<char>): nat {
    FirstNamed(Archive(es), HeadersFrom(es, 0)[..|es|], name)
  }

  lemma {:induction false} FirstFileIs(files: seq<File>, i: nat)
    requires DistinctNames(files) && i < |files|
    ensures FirstFile(files, files[i].name) == i
    decreases |files|
  {
    if i > 0 {
      var rest := files[1..];
      assert files[0].name != files[i].name && rest[i - 1] == files[i];
      FirstFileIs(rest, i - 1);
    }
  }

  /** A file whose header is not readable is not found by its name. */
  lemma UnreadableIsMissed(es: seq<seq<char>>, files: seq<File>, i: nat)
    requires AreEntries(es, files) && i < |files| && ModeOk(es[i][..BLOCK]) && !Readable(es[i][..BLOCK])
    ensures Lookup(es, files[i].name) != i
  {
    var mem, hs := Archive(es), HeadersFrom(es, 0);
    assert mem[0..] == mem;
    ArchiveDecodes(mem, 0, es, files);
    assert NameDecodes(mem, hs[i], es[i][..BLOCK], files[i]);
    assert hs[..|es|][i] == hs[i];
  }

  /** In an archive of files with different names the lookup is right for every name exactly if every header
      is readable. */
  lemma LookupRightIff(es: seq<seq<char>>, files: seq<File>)
    requires AreEntries(es, files) && DistinctNames(files) && forall i :: 0 <= i < |es| ==> ModeOk(es[i][..BLOCK])
    ensures (forall name :: Lookup(es, name) == FirstFile(files, name)) <==> AllReadable(es)
  {
    if AllReadable(es) {
      forall name ensures Lookup(es, name) == FirstFile(files, name) { LookupFindsFirstFile(es, files, name); }
    } else {
      var i :| 0 <= i < |es| && !Readable(es[i][..BLOCK]);
      UnreadableIsMissed(es, files, i);
      FirstFileIs(files, i);
      assert Lookup(es, files[i].name) != FirstFile(files, files[i].name);
    }
  }

  /** The lookup of the only file of an archive by its own full name finds nothing if its header is not
      readable. */
  lemma OnlyFileIsMissed(e: seq<char>, f: File)
    requires FileOk(f) && IsEntry(e, f) && ModeOk(e[..BLOCK]) && !Readable(e[..BLOCK])
    ensures Lookup([e], f.name) == 1
  {
    UnreadableIsMissed([e], [f], 0);
  }

  lemma ModeString(h: seq<char>, mode: seq<char>)
    requires |h| == BLOCK && |mode| == 7 && NoNul(mode) && '/' !in mode && h[NAME_SIZE..NAME_SIZE + 8] == mode + ['\0']
    ensures ModeOk(h)
  {
    var field := h[NAME_SIZE..NAME_SIZE + 8];
    forall i | 0 <= i < 7 ensures h[NAME_SIZE + i] == mode[i] { assert field[i] == h[NAME_SIZE + i]; }
    assert field[7] == h[NAME_SIZE + 7];
    StringIs(h, NAME_SIZE, mode);
  }

  /** A file with a name of exactly 100 bytes and mode 0000644 is not found by its name. */
  lemma LongNameIsMissed(f: File) returns (e: seq<char>)
    requires FileOk(f) && |f.name| == NAME_SIZE && NoNul(f.name)
    ensures IsEntry(e, f) && Lookup([e], f.name) == 1
  {
    var h := HeaderExists(f.name, "0000644" + ['\0'], [], |f.data|);
    ModeString(h, "0000644");
    assert h[NAME_SIZE] == h[NAME_SIZE..NAME_SIZE + 8][0];
    e := EntryWith(h, f);
    OnlyFileIsMissed(e, f);
  }

  /** A file with a prefix is not found by its full name. */
  lemma PrefixedNameIsMissed(prefix: seq<char>, name: seq<char>, f: File) returns (e: seq<char>)
    requires FileOk(f) && f.name == prefix + "/" + name
    requires 0 < |prefix| <= PREFIX_SIZE && NoNul(prefix) && |name| <= NAME_SIZE && NoNul(name)
    ensures IsEntry(e, f) && Lookup([e], f.name) == 1
  {
    var h := HeaderExists(name, "0000644" + ['\0'], prefix, |f.data|);
    ModeString(h, "0000644");
    e := EntryWith(h, f);
    OnlyFileIsMissed(e, f);
  }
}
