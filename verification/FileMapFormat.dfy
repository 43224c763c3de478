/** The bytes of a filemap file, one after the other: header, kinds, names, values and counts. */
module FileMapFormat {

  import opened CStrings
  import opened Wrappers
  import opened FileMap
  import opened FileMapStore

  const ZERO: string := [0 as char]

  /** The number that four bytes make, the first one counting most. */
  function CountOf(s: string, i: nat): nat
    requires i + 4 <= |s|
  {
    0x100_0000 * (s[i] as nat) + 0x1_0000 * (s[i + 1] as nat) + 0x100 * (s[i + 2] as nat) + s[i + 3] as nat
  }

  /** A written count: four bytes, the highest first. */
  lemma CountWritten(n: nat)
    requires n < 0x1_0000_0000
    ensures |Be32(n)| == 4 && (forall c :: c in Be32(n) ==> c < 256 as char) && n == CountOf(Be32(n), 0)
  {
    var a, b := n / 256, n / 256 / 256;
    assert b / 256 < 256;
    assert a == 256 * b + a % 256 && n == 256 * a + n % 256 && b == 256 * (b / 256) + b % 256;
  }

  /** A count that is read. */
  lemma CountRead(s: string)
    requires |s| >= 4
    ensures FromBe32(s) == CountOf(s, 0)
  {}

  /** A saved leaf: the byte 1, the name, a zero, the value, a zero. */
  lemma LeafBytes(name: string, value: Value)
    ensures SaveTree(Leaf(name, value)) == [1 as char] + name + ZERO + value.text + ZERO
  {
    assert [1 as char] + Field(name) == [1 as char] + name + ZERO;
    assert [1 as char] + name + ZERO + Field(value.text) == [1 as char] + name + ZERO + value.text + ZERO;
  }

  /** A saved directory: the byte 0, the name, a zero, the number of its entries as four bytes, and its entries in
      order. */
  lemma DirectoryBytes(name: string, subs: seq<Tree>) returns (count: string)
    requires |subs| < 0x1_0000_0000
    ensures |count| == 4 && (forall c :: c in count ==> c < 256 as char) && CountOf(count, 0) == |subs|
    ensures SaveTree(Dir(name, subs)) == [0 as char] + name + ZERO + count + SaveTrees(subs)
  {
    count := Be32(|subs|);
    CountWritten(|subs|);
    assert [0 as char] + Field(name) == [0 as char] + name + ZERO;
    assert [0 as char] + name + ZERO + (count + SaveTrees(subs)) == [0 as char] + name + ZERO + count + SaveTrees(subs);
  }

  lemma EntriesInOrder(t: Tree, subs: seq<Tree>)
    ensures SaveTrees([]) == "" && SaveTrees([t] + subs) == SaveTree(t) + SaveTrees(subs)
  {
    assert ([t] + subs)[1..] == subs;
  }

  /** The text that a value field takes: all of a value of at most 255 characters, the first 255 of a longer one. */
  lemma FieldTakes(closed: bool, value: string)
    ensures var text := Stored(closed, value).text;
            text <= value && (|value| <= 255 ==> text == value) && (|value| > 255 ==> |text| == 255)
    ensures Stored(closed, value).closed == closed
    ensures Read(Stored(closed, value)) == if |value| < 255 || closed then Some(Stored(closed, value).text) else None
  {}

  /** A saved file: the signature, a zero, the version 0.1.0.0, and the root. */
  lemma FileBytes(t: Tree)
    ensures SavedFile(t) == "org.darwinports.filemap" + ZERO + [0 as char, 1 as char, 0 as char, 0 as char] + SaveTree(t)
  {}

  /** The file of a filemap with the single key "a" and the value "v": one entry is counted 0, 0, 0, 1. */
  lemma OneEntryFile(closed: bool)
    ensures SavedFile(Dir("", [Leaf("a", Value("v", closed))])) ==
            "org.darwinports.filemap" + ZERO + [0 as char, 1 as char, 0 as char, 0 as char]
            + [0 as char, 0 as char, 0 as char, 0 as char, 0 as char, 1 as char]
            + [1 as char, 'a', 0 as char, 'v', 0 as char]
  {
    var t := Leaf("a", Value("v", closed));
    LeafBytes("a", Value("v", closed));
    assert SaveTree(t) == [1 as char, 'a', 0 as char, 'v', 0 as char];
    assert [t][1..] == [];
    assert SaveTrees([t]) == SaveTree(t) + SaveTrees([]) && SaveTrees([]) == "";
    assert Be32(1) == [0 as char, 0 as char, 0 as char, 1 as char];
    assert Field("") == ZERO;
    assert SaveTree(Dir("", [t])) == [0 as char, 0 as char, 0 as char, 0 as char, 0 as char, 1 as char] + SaveTree(t);
  }

  const HEADER: string := "org.darwinports.filemap" + ZERO

  /** The header is refused for its signature when all of it is there and the signature is another; for its version when
      the file is not empty but shorter than a header, or when only the version is another. */
  lemma HeaderRefused(file: string)
    ensures LoadFile(file) == Refused(SignatureMismatch) <==> |file| >= 28 && !(HEADER <= file)
    ensures LoadFile(file) == Refused(UnknownVersion) <==>
      (file != "" && |file| < 28) || (HEADER <= file && |file| >= 28 && file[24..28] != [0 as char, 1 as char, 0 as char, 0 as char])
    ensures file == "" ==> LoadFile(file) == Opened(Dir("", []))
  {
    assert |SIGNATURE| == 24 && HEADER == SIGNATURE;
    if |file| >= 28 {
      assert file[24..][..4] == file[24..28];
    }
  }
}
