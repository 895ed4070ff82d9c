/** The test-case file format: strings and objects with big-endian 32-bit lengths. */
module KTests {
  import opened Constructors

  type Bytes = seq<nat>

  datatype KTestObject = KTestObject(name: Bytes, bytes: Bytes)

  datatype KTest = KTest(version: nat, args: seq<Bytes>, symArgvs: nat, symArgvLen: nat, objects: seq<KTestObject>)

  const VERSION: nat := 3
  const MAGIC: Bytes := [75, 84, 69, 83, 84]
  const OLD_MAGIC: Bytes := [66, 79, 85, 84, 10]
  const WORD: nat := 0x1_0000_0000

  predicate AreBytes(b: Bytes) {
    forall i :: 0 <= i < |b| ==> b[i] < 0x100
  }

  /** A C string: bytes other than NUL, no more than a 32-bit length counts. */
  predicate IsCString(b: Bytes) {
    |b| < WORD && forall i :: 0 <= i < |b| ==> 0 < b[i] < 0x100
  }

  predicate IsKTest(t: KTest) {
    && |t.args| < WORD && (forall i :: 0 <= i < |t.args| ==> IsCString(t.args[i]))
    && t.symArgvs < WORD && t.symArgvLen < WORD && |t.objects| < WORD
    && forall i :: 0 <= i < |t.objects| ==>
         IsCString(t.objects[i].name) && |t.objects[i].bytes| < WORD && AreBytes(t.objects[i].bytes)
  }

  // --- The format --------------------------------------------------------------------------------

  function Word(v: nat): (b: Bytes) {
    [v / 0x100_0000 % 0x100, v / 0x1_0000 % 0x100, v / 0x100 % 0x100, v % 0x100]
  }

  function Text(s: Bytes): (b: Bytes) {
    Word(|s|) + s
  }

  function Texts(ss: seq<Bytes>): (b: Bytes) {
    if ss == [] then [] else Texts(ss[..|ss| - 1]) + Text(ss[|ss| - 1])
  }

  function Object(o: KTestObject): (b: Bytes) {
    Text(o.name) + Word(|o.bytes|) + o.bytes
  }

  function Objects(os: seq<KTestObject>): (b: Bytes) {
    if os == [] then [] else Objects(os[..|os| - 1]) + Object(os[|os| - 1])
  }

  /** The fields that a file has since version two. */
  function SymbolicFields(t: KTest): (b: Bytes) {
    if t.version < 2 then [] else Word(t.symArgvs) + Word(t.symArgvLen)
  }

  /** A file of any version. */
  function Layout(magic: Bytes, t: KTest): (b: Bytes) {
    magic + Word(t.version) + Word(|t.args|) + Texts(t.args) + SymbolicFields(t)
    + Word(|t.objects|) + Objects(t.objects)
  }

  /** What is written is always of the current version. */
  function Encoded(t: KTest): (b: Bytes) {
    Layout(MAGIC, t.(version := VERSION))
  }

  // --- Reading, as functions of the position ---------------------------------------------------------

  /** What was read and where the next read starts. */
  datatype Read<T> = Got(value: T, pos: nat) | Failed

  /** A block of no bytes counts as a failed read. */
  function BlockAt(d: Bytes, p: nat, n: nat): (r: Read<Bytes>) {
    if 0 < n && p + n <= |d| then Got(d[p..p + n], p + n) else Failed
  }

  function WordAt(d: Bytes, p: nat): (r: Read<nat>) {
    var b := BlockAt(d, p, 4);
    if b.Failed? then Failed
    else Got(((b.value[0] * 0x100 + b.value[1]) * 0x100 + b.value[2]) * 0x100 + b.value[3], b.pos)
  }

  function TextAt(d: Bytes, p: nat): (r: Read<Bytes>) {
    var len := WordAt(d, p);
    if len.Failed? then Failed else BlockAt(d, len.pos, len.value)
  }

  function TextsAt(d: Bytes, p: nat, n: nat): (r: Read<seq<Bytes>>)
    ensures r.Got? ==> |r.value| == n
  {
    if n == 0 then Got([], p)
    else
      var before := TextsAt(d, p, n - 1);
      if before.Failed? then Failed
      else
        var s := TextAt(d, before.pos);
        if s.Failed? then Failed else Got(before.value + [s.value], s.pos)
  }

  function ObjectAt(d: Bytes, p: nat): (r: Read<KTestObject>) {
    var name := TextAt(d, p);
    if name.Failed? then Failed
    else
      var len := WordAt(d, name.pos);
      if len.Failed? then Failed
      else
        var b := BlockAt(d, len.pos, len.value);
        if b.Failed? then Failed else Got(KTestObject(name.value, b.value), b.pos)
  }

  function ObjectsAt(d: Bytes, p: nat, n: nat): (r: Read<seq<KTestObject>>)
    ensures r.Got? ==> |r.value| == n
  {
    if n == 0 then Got([], p)
    else
      var before := ObjectsAt(d, p, n - 1);
      if before.Failed? then Failed
      else
        var o := ObjectAt(d, before.pos);
        if o.Failed? then Failed else Got(before.value + [o.value], o.pos)
  }

  /** A file of an older version than two has no symbolic-argument fields. */
  function Decoded(d: Bytes): (r: Read<KTest>) {
    var magic := BlockAt(d, 0, 5);
    if magic.Failed? || (magic.value != MAGIC && magic.value != OLD_MAGIC) then Failed
    else
      var version := WordAt(d, magic.pos);
      if version.Failed? || version.value > VERSION then Failed
      else
        var numArgs := WordAt(d, version.pos);
        if numArgs.Failed? then Failed
        else
          var args := TextsAt(d, numArgs.pos, numArgs.value);
          if args.Failed? then Failed
          else DecodedRest(d, version.value, args.value, args.pos)
  }

  /** The part of a file behind the arguments, as it is read. */
  function DecodedRest(d: Bytes, version: nat, args: seq<Bytes>, p: nat): (r: Read<KTest>) {
    if version < 2 then DecodedObjects(d, version, args, 0, 0, p)
    else
      var symArgvs := WordAt(d, p);
      if symArgvs.Failed? then Failed
      else
        var symArgvLen := WordAt(d, symArgvs.pos);
        if symArgvLen.Failed? then Failed
        else DecodedObjects(d, version, args, symArgvs.value, symArgvLen.value, symArgvLen.pos)
  }

  function DecodedObjects(d: Bytes, version: nat, args: seq<Bytes>, symArgvs: nat, symArgvLen: nat,
                          p: nat): (r: Read<KTest>) {
    var numObjects := WordAt(d, p);
    if numObjects.Failed? then Failed
    else
      var objects := ObjectsAt(d, numObjects.pos, numObjects.value);
      if objects.Failed? then Failed
      else Got(KTest(version, args, symArgvs, symArgvLen, objects.value), objects.pos)
  }

  // --- Round trip ----------------------------------------------------------------------------------------

  /** The bytes stand in the file at this position. */
  predicate Holds(d: Bytes, p: nat, b: Bytes) {
    p + |b| <= |d| && d[p..p + |b|] == b
  }

  lemma {:induction false} HoldsParts(d: Bytes, p: nat, b: Bytes, c: Bytes)
    ensures Holds(d, p, b + c) <==> Holds(d, p, b) && Holds(d, p + |b|, c)
  {
    if Holds(d, p, b + c) {
      assert b == (b + c)[..|b|] && c == (b + c)[|b|..];
    }
    if Holds(d, p, b) && Holds(d, p + |b|, c) {
      assert d[p..p + |b + c|] == d[p..p + |b|] + d[p + |b|..p + |b| + |c|];
    }
  }

  lemma {:induction false} WordReadBack(d: Bytes, p: nat, v: nat)
    requires v < WORD && Holds(d, p, Word(v))
    ensures WordAt(d, p) == Got(v, p + 4)
  {
    WordValue(v);
    assert BlockAt(d, p, 4) == Got(Word(v), p + 4);
  }

  lemma {:induction false} WordValue(v: nat)
    requires v < WORD
    ensures ((Word(v)[0] * 0x100 + Word(v)[1]) * 0x100 + Word(v)[2]) * 0x100 + Word(v)[3] == v
  {
    var x := v / 0x100;
    var y := x / 0x100;
    var z := y / 0x100;
    assert v == x * 0x100 + v % 0x100 && x == y * 0x100 + x % 0x100 && y == z * 0x100 + y % 0x100;
    assert v / 0x1_0000 == y && v / 0x100_0000 == z < 0x100;
  }

  lemma {:induction false} TextReadBack(d: Bytes, p: nat, s: Bytes)
    requires |s| < WORD && Holds(d, p, Text(s))
    ensures TextAt(d, p) == if s == [] then Failed else Got(s, p + |Text(s)|)
  {
    HoldsParts(d, p, Word(|s|), s);
    WordReadBack(d, p, |s|);
  }

  lemma {:induction false} TextsReadBack(d: Bytes, p: nat, ss: seq<Bytes>)
    requires Holds(d, p, Texts(ss)) && forall i :: 0 <= i < |ss| ==> 0 < |ss[i]| < WORD
    ensures TextsAt(d, p, |ss|) == Got(ss, p + |Texts(ss)|)
  {
    hide Text, TextAt, Holds;
    if ss != [] {
      var rest, s := ss[..|ss| - 1], ss[|ss| - 1];
      HoldsParts(d, p, Texts(rest), Text(s));
      TextsReadBack(d, p, rest);
      TextReadBack(d, p + |Texts(rest)|, s);
      assert ss == rest + [s];
    }
  }

  lemma {:induction false} ObjectReadBack(d: Bytes, p: nat, o: KTestObject)
    requires Holds(d, p, Object(o)) && 0 < |o.name| < WORD && 0 < |o.bytes| < WORD
    ensures ObjectAt(d, p) == Got(o, p + |Object(o)|)
  {
    HoldsParts(d, p, Text(o.name) + Word(|o.bytes|), o.bytes);
    HoldsParts(d, p, Text(o.name), Word(|o.bytes|));
    TextReadBack(d, p, o.name);
    WordReadBack(d, p + |Text(o.name)|, |o.bytes|);
  }

  lemma {:induction false} ObjectsReadBack(d: Bytes, p: nat, os: seq<KTestObject>)
    requires Holds(d, p, Objects(os))
    requires forall i :: 0 <= i < |os| ==> 0 < |os[i].name| < WORD && 0 < |os[i].bytes| < WORD
    ensures ObjectsAt(d, p, |os|) == Got(os, p + |Objects(os)|)
  {
    hide Object, ObjectAt, Holds, Text, Word, BlockAt;
    if os != [] {
      var rest, o := os[..|os| - 1], os[|os| - 1];
      HoldsParts(d, p, Objects(rest), Object(o));
      ObjectsReadBack(d, p, rest);
      ObjectReadBack(d, p + |Objects(rest)|, o);
      assert os == rest + [o] && |Objects(os)| == |Objects(rest)| + |Object(o)|;
      assert ObjectsAt(d, p, |os| - 1) == Got(rest, p + |Objects(rest)|);
    }
  }

  /** What the writer accepts: nothing may be empty. */
  predicate Writable(t: KTest) {
    && (forall i :: 0 <= i < |t.args| ==> t.args[i] != [])
    && forall i :: 0 <= i < |t.objects| ==> t.objects[i].name != [] && t.objects[i].bytes != []
  }

  /** What a file can hold. */
  predicate Readable(t: KTest) {
    && t.version <= VERSION && |t.args| < WORD && t.symArgvs < WORD && t.symArgvLen < WORD && |t.objects| < WORD
    && (t.version < 2 ==> t.symArgvs == t.symArgvLen == 0)
    && (forall i :: 0 <= i < |t.args| ==> 0 < |t.args[i]| < WORD)
    && forall i :: 0 <= i < |t.objects| ==> 0 < |t.objects[i].name| < WORD && 0 < |t.objects[i].bytes| < WORD
  }

  /** A file of any version is read as the test it holds. */
  lemma {:induction false} LayoutDecoded(d: Bytes, magic: Bytes, t: KTest)
    requires (magic == MAGIC || magic == OLD_MAGIC) && Readable(t) && Holds(d, 0, Layout(magic, t))
    ensures Decoded(d) == Got(t, |Layout(magic, t)|)
  {
    hide Word, WordAt, Texts, TextsAt, Objects, ObjectsAt, BlockAt, DecodedObjects, SymbolicFields, Holds;
    var p1 := magic + Word(t.version);
    var p2 := p1 + Word(|t.args|);
    var p3 := p2 + Texts(t.args);
    var p4 := p3 + SymbolicFields(t);
    HoldsParts(d, 0, p4 + Word(|t.objects|), Objects(t.objects));
    HoldsParts(d, 0, p4, Word(|t.objects|));
    HoldsParts(d, 0, p3, SymbolicFields(t));
    HoldsParts(d, 0, p2, Texts(t.args));
    HoldsParts(d, 0, p1, Word(|t.args|));
    HoldsParts(d, 0, magic, Word(t.version));
    MagicReadBack(d, magic);
    WordReadBack(d, 5, t.version);
    WordReadBack(d, |p1|, |t.args|);
    TextsReadBack(d, |p2|, t.args);
    FieldsReadBack(d, |p3|, t);
    WordLength();
    ObjectsPartReadBack(d, |p4|, t);
  }

  lemma {:induction false} FieldsReadBack(d: Bytes, p: nat, t: KTest)
    requires Readable(t) && Holds(d, p, SymbolicFields(t))
    ensures t.version < 2 ==> SymbolicFields(t) == []
    ensures 2 <= t.version ==>
              && WordAt(d, p) == Got(t.symArgvs, p + 4) && WordAt(d, p + 4) == Got(t.symArgvLen, p + 8)
              && |SymbolicFields(t)| == 8
  {
    hide Word, WordAt;
    WordLength();
    if 2 <= t.version {
      HoldsParts(d, p, Word(t.symArgvs), Word(t.symArgvLen));
      WordReadBack(d, p, t.symArgvs);
      WordReadBack(d, p + 4, t.symArgvLen);
    }
  }

  lemma {:induction false} ObjectsPartReadBack(d: Bytes, p: nat, t: KTest)
    requires Readable(t) && Holds(d, p, Word(|t.objects|)) && Holds(d, p + 4, Objects(t.objects))
    ensures DecodedObjects(d, t.version, t.args, t.symArgvs, t.symArgvLen, p) == Got(t, p + 4 + |Objects(t.objects)|)
  {
    hide Word, WordAt, Objects, ObjectsAt, Holds;
    WordReadBack(d, p, |t.objects|);
    ObjectsReadBack(d, p + 4, t.objects);
  }

  /** Reading what was written gives the test back, in the current version, and consumes the
      file exactly. */
  lemma {:induction false} RoundTrip(t: KTest)
    requires IsKTest(t) && Writable(t)
    ensures Decoded(Encoded(t)) == Got(t.(version := VERSION), |Encoded(t)|)
  {
    hide Layout;
    assert Holds(Encoded(t), 0, Encoded(t));
    LayoutDecoded(Encoded(t), MAGIC, t.(version := VERSION));
  }

  // --- Bytes ----------------------------------------------------------------------------------------------

  /** The four digits are bytes; with WordValue that leaves only the digits to base 256. */
  lemma {:induction false} WordBytes(v: nat)
    ensures |Word(v)| == 4 && AreBytes(Word(v))
  {
  }

  lemma {:induction false} TextsBytes(ss: seq<Bytes>)
    requires forall i :: 0 <= i < |ss| ==> AreBytes(ss[i])
    ensures AreBytes(Texts(ss))
  {
    hide Word;
    if ss != [] {
      TextsBytes(ss[..|ss| - 1]);
      WordBytes(|ss[|ss| - 1]|);
    }
  }

  lemma {:induction false} ObjectsBytes(os: seq<KTestObject>)
    requires forall i :: 0 <= i < |os| ==> AreBytes(os[i].name) && AreBytes(os[i].bytes)
    ensures AreBytes(Objects(os))
  {
    hide Word;
    if os != [] {
      ObjectsBytes(os[..|os| - 1]);
      WordBytes(|os[|os| - 1].name|);
      WordBytes(|os[|os| - 1].bytes|);
    }
  }

  /** A file consists of bytes. */
  lemma {:induction false} EncodedBytes(t: KTest)
    requires IsKTest(t)
    ensures AreBytes(Encoded(t))
  {
    hide Word, Texts, Objects;
    WordBytes(VERSION);
    WordBytes(|t.args|);
    TextsBytes(t.args);
    WordBytes(t.symArgvs);
    WordBytes(t.symArgvLen);
    WordBytes(|t.objects|);
    ObjectsBytes(t.objects);
  }

  // --- Only laid-out files are read ------------------------------------------------------------------------

  lemma {:induction false} WordLaidOut(d: Bytes, p: nat)
    requires AreBytes(d) && WordAt(d, p).Got?
    ensures var r := WordAt(d, p);
            r.value < WORD && r.pos == p + 4 && Holds(d, p, Word(r.value)) && |Word(r.value)| == 4
  {
    var b := d[p..p + 4];
    DigitsUnique(b[0], b[1], b[2], b[3]);
    assert b == [b[0], b[1], b[2], b[3]];
  }

  lemma {:induction false} DigitsUnique(a: nat, b: nat, c: nat, e: nat)
    requires a < 0x100 && b < 0x100 && c < 0x100 && e < 0x100
    ensures var v := ((a * 0x100 + b) * 0x100 + c) * 0x100 + e;
            v < WORD && Word(v) == [a, b, c, e]
  {
    var x := a * 0x100 + b;
    var y := x * 0x100 + c;
    var v := y * 0x100 + e;
    LastDigit(a, b);
    LastDigit(x, c);
    LastDigit(y, e);
    assert v / 0x1_0000 == y / 0x100 && v / 0x100_0000 == x / 0x100;
  }

  lemma {:induction false} LastDigit(x: nat, d: nat)
    requires d < 0x100
    ensures (x * 0x100 + d) / 0x100 == x && (x * 0x100 + d) % 0x100 == d
  {
  }

  lemma {:induction false} TextLaidOut(d: Bytes, p: nat)
    requires AreBytes(d) && TextAt(d, p).Got?
    ensures var r := TextAt(d, p);
            0 < |r.value| < WORD && r.pos == p + |Text(r.value)| && Holds(d, p, Text(r.value))
  {
    hide WordAt, Word;
    WordLaidOut(d, p);
    var r := TextAt(d, p);
    HoldsParts(d, p, Word(|r.value|), r.value);
  }

  lemma {:induction false} TextsLaidOut(d: Bytes, p: nat, n: nat)
    requires AreBytes(d) && TextsAt(d, p, n).Got? && p <= |d|
    ensures var r := TextsAt(d, p, n);
            && r.pos == p + |Texts(r.value)| && Holds(d, p, Texts(r.value))
            && forall i :: 0 <= i < n ==> 0 < |r.value[i]| < WORD
  {
    hide TextAt, Text, Holds;
    if n == 0 {
      NothingHeld(d, p);
    } else {
      var before, r := TextsAt(d, p, n - 1), TextsAt(d, p, n);
      TextsLaidOut(d, p, n - 1);
      TextLaidOut(d, before.pos);
      assert r.value[..n - 1] == before.value;
      HoldsParts(d, p, Texts(before.value), Text(r.value[n - 1]));
    }
  }

  lemma {:induction false} NothingHeld(d: Bytes, p: nat)
    requires p <= |d|
    ensures Holds(d, p, [])
  {
  }

  lemma {:induction false} ObjectLaidOut(d: Bytes, p: nat)
    requires AreBytes(d) && ObjectAt(d, p).Got?
    ensures var r := ObjectAt(d, p);
            && r.pos == p + |Object(r.value)| && Holds(d, p, Object(r.value))
            && 0 < |r.value.name| < WORD && 0 < |r.value.bytes| < WORD
  {
    hide TextAt, WordAt, Text, Word;
    var name := TextAt(d, p);
    var o := ObjectAt(d, p).value;
    TextLaidOut(d, p);
    WordLaidOut(d, name.pos);
    HoldsParts(d, p, Text(o.name), Word(|o.bytes|));
    HoldsParts(d, p, Text(o.name) + Word(|o.bytes|), o.bytes);
  }

  lemma {:induction false} ObjectsLaidOut(d: Bytes, p: nat, n: nat)
    requires AreBytes(d) && ObjectsAt(d, p, n).Got? && p <= |d|
    ensures var r := ObjectsAt(d, p, n);
            && r.pos == p + |Objects(r.value)| && Holds(d, p, Objects(r.value))
            && forall i :: 0 <= i < n ==> 0 < |r.value[i].name| < WORD && 0 < |r.value[i].bytes| < WORD
  {
    hide ObjectAt, Object, Holds;
    if n == 0 {
      NothingHeld(d, p);
    } else {
      var before, r := ObjectsAt(d, p, n - 1), ObjectsAt(d, p, n);
      ObjectsLaidOut(d, p, n - 1);
      ObjectLaidOut(d, before.pos);
      assert r.value[..n - 1] == before.value;
      HoldsParts(d, p, Objects(before.value), Object(r.value[n - 1]));
    }
  }

  /** Everything that is read as a test is a file laid out as one: so reading and writing are
      inverse to each other. */
  lemma {:induction false} DecodedLaidOut(d: Bytes)
    requires AreBytes(d) && Decoded(d).Got?
    ensures var r := Decoded(d);
            && (d[..5] == MAGIC || d[..5] == OLD_MAGIC) && Readable(r.value)
            && r.pos == |Layout(d[..5], r.value)| && Holds(d, 0, Layout(d[..5], r.value))
  {
    hide WordAt, Word, TextsAt, Texts, DecodedObjects, SymbolicFields, Objects, Holds;
    var magic := d[..5];
    var version := WordAt(d, 5);
    var numArgs := WordAt(d, version.pos);
    var args := TextsAt(d, numArgs.pos, numArgs.value);
    var t := Decoded(d).value;
    WordLength();
    WordLaidOut(d, 5);
    WordLaidOut(d, version.pos);
    WordInside(d, version.pos);
    TextsLaidOut(d, numArgs.pos, numArgs.value);
    MagicHeld(d);
    HoldsParts(d, 0, magic, Word(t.version));
    HoldsParts(d, 0, magic + Word(t.version), Word(|t.args|));
    HoldsParts(d, 0, magic + Word(t.version) + Word(|t.args|), Texts(t.args));
    RestLaidOut(d, version.value, args.value, args.pos, t);
    var rest := SymbolicFields(t) + Word(|t.objects|) + Objects(t.objects);
    HoldsParts(d, 0, magic + Word(t.version) + Word(|t.args|) + Texts(t.args), rest);
    assert Layout(magic, t) == magic + Word(t.version) + Word(|t.args|) + Texts(t.args) + rest;
  }

  /** What a file is read as: the one test whose layout it begins with, if there is one. */
  lemma {:induction false} FileFormat(d: Bytes, t: KTest, n: nat)
    requires AreBytes(d)
    ensures Decoded(d) == Got(t, n) <==>
              Readable(t) && exists magic :: (magic == MAGIC || magic == OLD_MAGIC)
                                             && Holds(d, 0, Layout(magic, t)) && n == |Layout(magic, t)|
  {
    hide Decoded, Layout, Readable;
    if Decoded(d) == Got(t, n) {
      DecodedLaidOut(d);
    }
    forall magic | (magic == MAGIC || magic == OLD_MAGIC) && Readable(t) && Holds(d, 0, Layout(magic, t))
      ensures Decoded(d) == Got(t, |Layout(magic, t)|)
    {
      LayoutDecoded(d, magic, t);
    }
  }

  /** A file byte by byte: an argument "a", one symbolic argument of length two, and an object
      "n" of two bytes. */
  lemma {:induction false} SampleFile(t: KTest)
    requires t.args == [[97]] && t.symArgvs == 1 && t.symArgvLen == 2 && t.objects == [KTestObject([110], [7, 8])]
    ensures Encoded(t) == [75, 84, 69, 83, 84, 0, 0, 0, 3, 0, 0, 0, 1, 0, 0, 0, 1, 97, 0, 0, 0, 1, 0, 0, 0, 2,
                           0, 0, 0, 1, 0, 0, 0, 1, 110, 0, 0, 0, 2, 7, 8]
  {
    hide Word, Texts, Object, Objects;
    SmallWords();
    OneText([97]);
    OneObject(KTestObject([110], [7, 8]));
    SampleObject();
    var head := MAGIC + Word(VERSION) + Word(1) + Texts(t.args);
    assert head == [75, 84, 69, 83, 84, 0, 0, 0, 3, 0, 0, 0, 1, 0, 0, 0, 1, 97];
    var fields := Word(1) + Word(2) + Word(1);
    assert fields == [0, 0, 0, 1, 0, 0, 0, 2, 0, 0, 0, 1];
    assert Encoded(t) == head + fields + Objects(t.objects);
  }

  lemma {:induction false} SampleObject()
    ensures Object(KTestObject([110], [7, 8])) == [0, 0, 0, 1, 110, 0, 0, 0, 2, 7, 8]
  {
    hide Word;
    SmallWords();
  }

  lemma {:induction false} SmallWords()
    ensures Word(1) == [0, 0, 0, 1] && Word(2) == [0, 0, 0, 2] && Word(3) == [0, 0, 0, 3]
  {
  }

  lemma {:induction false} OneText(s: Bytes)
    ensures Texts([s]) == Text(s)
  {
    hide Text;
    assert [s][..0] == [];
  }

  lemma {:induction false} OneObject(o: KTestObject)
    ensures Objects([o]) == Object(o)
  {
    hide Object;
    assert [o][..0] == [];
  }

  lemma {:induction false} MagicHeld(d: Bytes)
    requires 5 <= |d|
    ensures Holds(d, 0, d[..5]) && BlockAt(d, 0, 5) == Got(d[..5], 5)
  {
  }

  lemma {:induction false} WordInside(d: Bytes, p: nat)
    requires WordAt(d, p).Got?
    ensures WordAt(d, p).pos <= |d|
  {
  }

  lemma {:induction false} RestLaidOut(d: Bytes, version: nat, args: seq<Bytes>, p: nat, t: KTest)
    requires AreBytes(d) && DecodedRest(d, version, args, p).Got? && DecodedRest(d, version, args, p).value == t
    ensures t.version == version && t.args == args && t.symArgvs < WORD && t.symArgvLen < WORD && |t.objects| < WORD
    ensures version < 2 ==> t.symArgvs == t.symArgvLen == 0
    ensures forall i :: 0 <= i < |t.objects| ==> 0 < |t.objects[i].name| < WORD && 0 < |t.objects[i].bytes| < WORD
    ensures var rest := SymbolicFields(t) + Word(|t.objects|) + Objects(t.objects);
            DecodedRest(d, version, args, p).pos == p + |rest| && Holds(d, p, rest)
  {
    hide WordAt, Word, ObjectsAt, Objects, Holds;
    var fields := SymbolicFields(t);
    if 2 <= version {
      WordLaidOut(d, p);
      WordLaidOut(d, p + 4);
      HoldsParts(d, p, Word(t.symArgvs), Word(t.symArgvLen));
    }
    var q := p + |fields|;
    WordLaidOut(d, q);
    WordInside(d, q);
    ObjectsLaidOut(d, q + 4, WordAt(d, q).value);
    HoldsParts(d, q, Word(|t.objects|), Objects(t.objects));
    assert fields + Word(|t.objects|) + Objects(t.objects) == fields + (Word(|t.objects|) + Objects(t.objects));
    if version < 2 {
      assert fields + (Word(|t.objects|) + Objects(t.objects)) == Word(|t.objects|) + Objects(t.objects);
    } else {
      HoldsParts(d, p, fields, Word(|t.objects|) + Objects(t.objects));
    }
  }

  lemma {:induction false} WordLength()
    ensures forall v :: |Word(v)| == 4
  {
  }

  lemma {:induction false} MagicReadBack(d: Bytes, magic: Bytes)
    requires Holds(d, 0, magic) && |magic| == 5
    ensures BlockAt(d, 0, 5) == Got(magic, 5)
  {
  }

  /** A test with an empty string or object could not be read back. */
  lemma {:induction false} EmptyTextFails(d: Bytes, p: nat)
    requires Holds(d, p, Text([]))
    ensures TextAt(d, p).Failed?
  {
    TextReadBack(d, p, []);
  }

  /** A test with one empty argument cannot be written, and its encoding could not be read. */
  lemma {:induction false} EmptyArgumentFails() returns (t: KTest)
    ensures IsKTest(t) && !Writable(t) && Decoded(Encoded(t)).Failed?
  {
    var empty: Bytes := [];
    t := KTest(VERSION, [empty], 0, 0, []);
    var d, args := Encoded(t), Texts([empty]);
    assert [empty][..0] == [] && args == Texts([]) + Text([]) == Text([]);
    var head := MAGIC + Word(VERSION) + Word(1);
    assert d == head + args + (Word(0) + Word(0) + Word(0) + Objects([]));
    WordLength();
    assert Holds(d, 0, MAGIC) && Holds(d, 5, Word(VERSION)) && Holds(d, 9, Word(1)) && Holds(d, 13, args);
    MagicReadBack(d, MAGIC);
    WordReadBack(d, 5, VERSION);
    WordReadBack(d, 9, 1);
    EmptyTextFails(d, 13);
    assert TextsAt(d, 13, 0) == Got([], 13);
    assert TextsAt(d, 13, 1).Failed?;
  }

  // --- Files ------------------------------------------------------------------------------------------------

  /** A file: what was written to it and how far it has been read. */
  class File {
    var data: Bytes
    var pos: nat

    constructor (data: Bytes)
      ensures this.data == data && pos == 0
    {
      this.data, pos := data, 0;
    }

    /** Reads one block of n bytes; one of no bytes never counts as read. */
    method ReadBlock(n: nat) returns (ok: bool, b: Bytes)
      modifies this`pos
      ensures var r := BlockAt(data, old(pos), n);
              ok == r.Got? && (ok ==> b == r.value && pos == r.pos)
    {
      ok, b := 0 < n && pos + n <= |data|, [];
      if ok {
        b := data[pos..pos + n];
        pos := pos + n;
      }
    }

    method ReadUint32() returns (ok: bool, v: nat)
      modifies this`pos
      ensures var r := WordAt(data, old(pos));
              ok == r.Got? && (ok ==> v == r.value && pos == r.pos)
    {
      var b;
      ok, b := ReadBlock(4);
      v := if ok then ((b[0] * 0x100 + b[1]) * 0x100 + b[2]) * 0x100 + b[3] else 0;
    }

    method ReadString() returns (ok: bool, s: Bytes)
      modifies this`pos
      ensures var r := TextAt(data, old(pos));
              ok == r.Got? && (ok ==> s == r.value && pos == r.pos)
    {
      var len;
      s := [];
      ok, len := ReadUint32();
      if ok {
        ok, s := ReadBlock(len);
      }
    }

    method ReadStrings(n: nat) returns (ok: bool, ss: seq<Bytes>)
      modifies this`pos
      ensures var r := TextsAt(data, old(pos), n);
              ok == r.Got? && (ok ==> ss == r.value && pos == r.pos)
    {
      hide TextAt;
      ss := [];
      for i := 0 to n
        invariant TextsAt(data, old(pos), i) == Got(ss, pos)
      {
        ghost var start := old(pos);
        var s;
        ok, s := ReadString();
        if !ok {
          TextsFail(data, start, i + 1, n);
          return;
        }
        ss := ss + [s];
      }
      ok := true;
    }

    method ReadObject() returns (ok: bool, o: KTestObject)
      modifies this`pos
      ensures var r := ObjectAt(data, old(pos));
              ok == r.Got? && (ok ==> o == r.value && pos == r.pos)
    {
      var name, len, bytes;
      o := KTestObject([], []);
      ok, name := ReadString();
      if ok {
        ok, len := ReadUint32();
        if ok {
          ok, bytes := ReadBlock(len);
          o := KTestObject(name, bytes);
        }
      }
    }

    method ReadObjects(n: nat) returns (ok: bool, os: seq<KTestObject>)
      modifies this`pos
      ensures var r := ObjectsAt(data, old(pos), n);
              ok == r.Got? && (ok ==> os == r.value && pos == r.pos)
    {
      hide ObjectAt;
      os := [];
      for i := 0 to n
        invariant ObjectsAt(data, old(pos), i) == Got(os, pos)
      {
        ghost var start := old(pos);
        var o;
        ok, o := ReadObject();
        if !ok {
          ObjectsFail(data, start, i + 1, n);
          return;
        }
        os := os + [o];
      }
      ok := true;
    }

    method CheckHeader() returns (ok: bool)
      modifies this`pos
      ensures var r := BlockAt(data, old(pos), 5);
              ok == (r.Got? && (r.value == MAGIC || r.value == OLD_MAGIC)) && (ok ==> pos == r.pos)
    {
      var header;
      ok, header := ReadBlock(5);
      ok := ok && (header == MAGIC || header == OLD_MAGIC);
    }

    /** Reads a whole test from the start of the file. */
    method FromFile() returns (r: Option<KTest>)
      requires pos == 0
      modifies this`pos
      ensures r == if Decoded(data).Got? then Some(Decoded(data).value) else None
    {
      hide TextsAt, ObjectsAt, BlockAt, WordAt;
      r := None;
      var ok, version, numArgs, args, numObjects, objects;
      var symArgvs, symArgvLen := 0, 0;
      ok := CheckHeader();
      if !ok { return; }
      ok, version := ReadUint32();
      if !ok || version > VERSION { return; }
      ok, numArgs := ReadUint32();
      if !ok { return; }
      ok, args := ReadStrings(numArgs);
      if !ok { return; }
      if version >= 2 {
        ok, symArgvs := ReadUint32();
        if !ok { return; }
        ok, symArgvLen := ReadUint32();
        if !ok { return; }
      }
      ok, numObjects := ReadUint32();
      if !ok { return; }
      ok, objects := ReadObjects(numObjects);
      if ok {
        r := Some(KTest(version, args, symArgvs, symArgvLen, objects));
      }
    }

    /** Appends a block; one of no bytes never counts as written. */
    method WriteBlock(b: Bytes) returns (ok: bool)
      modifies this`data
      ensures ok == (b != []) && data == old(data) + b
    {
      ok := b != [];
      data := data + b;
    }

    method WriteUint32(v: nat)
      modifies this`data
      ensures data == old(data) + Word(v)
    {
      var ok := WriteBlock([v / 0x100_0000 % 0x100, v / 0x1_0000 % 0x100, v / 0x100 % 0x100, v % 0x100]);
    }

    method WriteString(s: Bytes) returns (ok: bool)
      modifies this`data
      ensures ok == (s != []) && data == old(data) + Text(s)
    {
      WriteUint32(|s|);
      ok := WriteBlock(s);
    }

    /** Writes a whole test; it succeeds exactly when nothing in it is empty. */
    method ToFile(t: KTest) returns (ok: bool)
      requires data == []
      modifies this`data
      ensures ok == Writable(t) && (ok ==> data == Encoded(t))
      ensures ok && IsKTest(t) ==> AreBytes(data)
    {
      hide Word, Text, Texts, Object, Objects, IsKTest, AreBytes;
      ok := WriteBlock(MAGIC);
      WriteUint32(VERSION);
      WriteUint32(|t.args|);
      ok := WriteArgs(t.args);
      if !ok { return; }
      ghost var head := MAGIC + Word(VERSION) + Word(|t.args|) + Texts(t.args);
      assert data == head;
      WriteUint32(t.symArgvs);
      WriteUint32(t.symArgvLen);
      WriteUint32(|t.objects|);
      assert data == head + Word(t.symArgvs) + Word(t.symArgvLen) + Word(|t.objects|);
      ok := WriteObjects(t.objects);
      if IsKTest(t) {
        EncodedBytes(t);
      }
    }

    method WriteArgs(args: seq<Bytes>) returns (ok: bool)
      modifies this`data
      ensures ok == (forall i :: 0 <= i < |args| ==> args[i] != [])
      ensures ok ==> data == old(data) + Texts(args)
    {
      hide Text;
      assert args[..0] == [];
      for i := 0 to |args|
        invariant data == old(data) + Texts(args[..i])
        invariant forall j :: 0 <= j < i ==> args[j] != []
      {
        assert args[..i + 1][..i] == args[..i];
        ok := WriteString(args[i]);
        if !ok { return; }
      }
      assert args[..|args|] == args;
      ok := true;
    }

    method WriteObjects(os: seq<KTestObject>) returns (ok: bool)
      modifies this`data
      ensures ok == (forall i :: 0 <= i < |os| ==> os[i].name != [] && os[i].bytes != [])
      ensures ok ==> data == old(data) + Objects(os)
    {
      hide Text, Word;
      assert os[..0] == [];
      for i := 0 to |os|
        invariant data == old(data) + Objects(os[..i])
        invariant forall j :: 0 <= j < i ==> os[j].name != [] && os[j].bytes != []
      {
        assert os[..i + 1][..i] == os[..i];
        ok := WriteString(os[i].name);
        if !ok { return; }
        WriteUint32(|os[i].bytes|);
        ok := WriteBlock(os[i].bytes);
        if !ok { return; }
      }
      assert os[..|os|] == os;
      ok := true;
    }
  }

  /** A test that was written is read back. */
  method SaveAndLoad(t: KTest) returns (r: Option<KTest>)
    requires IsKTest(t)
    ensures r == if Writable(t) then Some(t.(version := VERSION)) else None
  {
    hide Encoded, Decoded;
    var f := new File([]);
    var ok := f.ToFile(t);
    if !ok {
      return None;
    }
    RoundTrip(t);
    r := f.FromFile();
  }

  /** Once a string cannot be read, neither can the list. */
  lemma {:induction false} TextsFail(d: Bytes, p: nat, k: nat, n: nat)
    requires k <= n && TextsAt(d, p, k).Failed?
    ensures TextsAt(d, p, n).Failed?
    decreases n
  {
    if k < n {
      TextsFail(d, p, k, n - 1);
    }
  }

  lemma {:induction false} ObjectsFail(d: Bytes, p: nat, k: nat, n: nat)
    requires k <= n && ObjectsAt(d, p, k).Failed?
    ensures ObjectsAt(d, p, n).Failed?
    decreases n
  {
    if k < n {
      ObjectsFail(d, p, k, n - 1);
    }
  }
}
