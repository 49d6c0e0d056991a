/**
  The class data and code items a DEX actually uses, and the changes that leave
  them readable.
 */
module Live {
  import opened Bytes
  import opened Dex
  import opened ClassData
  import opened CodeItem
  import opened FormatFix
  import opened Relocation
  import opened RelocationProofs
  import opened Relocated

  /** The methods of class `i`, none when it has no readable data. */
  function MethodsOf(b: seq<byte>, i: nat): seq<EncodedMethod>
    requires DefsInFile(b) && i < ClassDefsSize(b)
  {
    if ClassDataOff(b, i) == 0 then []
    else
      match ParseClassData(b, ClassDataOff(b, i))
      case Ok((item, end)) => item.Methods()
      case Err(_) => []
  }

  ghost predicate LiveData(b: seq<byte>, off: u32)
    requires DefsInFile(b)
  {
    off != 0 && exists i :: 0 <= i < ClassDefsSize(b) && ClassDataOff(b, i) == off
  }

  /** Some method's code offset. */
  ghost predicate CodeOffset(b: seq<byte>, off: u32)
    requires DefsInFile(b)
  {
    off != 0 && exists i, k :: 0 <= i < ClassDefsSize(b) && 0 <= k < |MethodsOf(b, i)| && MethodsOf(b, i)[k].codeOff == off
  }

  /** A code offset with instructions at it. */
  ghost predicate LiveCode(b: seq<byte>, off: u32)
    requires DefsInFile(b)
  {
    CodeOffset(b, off) && InsnsLen(b, off).Some?
  }

  ghost predicate ReadableClass(b: seq<byte>, i: nat)
    requires DefsInFile(b) && i < ClassDefsSize(b)
  {
    ClassDataOff(b, i) != 0 ==> ParseClassData(b, ClassDataOff(b, i)).Ok?
  }

  /** All class data and every item that has instructions can be read whole. */
  ghost predicate Sound(b: seq<byte>) {
    && DefsInFile(b)
    && (forall i :: 0 <= i < ClassDefsSize(b) ==> ReadableClass(b, i))
    && (forall off: u32 :: LiveCode(b, off) ==> CodeItemEnd(b, off).Ok?)
  }

  /** Moreover no method has an unusable offset. */
  ghost predicate Healthy(b: seq<byte>) {
    Sound(b) && forall off: u32 :: CodeOffset(b, off) ==> LiveCode(b, off)
  }

  // ----- changes that keep everything readable -----

  /** `r` reads as the same classes and items. */
  ghost predicate ReadsSame(b: seq<byte>, r: seq<byte>)
    requires DefsInFile(b)
  {
    && DefsInFile(r) && SameClassDefs(b, r)
    && (forall i :: 0 <= i < ClassDefsSize(b) ==> ReadsSameClass(b, r, i))
    && (forall off: u32 :: LiveCode(b, off) ==> ReadsSameItem(b, r, off))
  }

  ghost predicate ReadsSameItem(b: seq<byte>, r: seq<byte>, off: u32) {
    CodeItemEnd(r, off) == CodeItemEnd(b, off) && InsnsLen(r, off) == InsnsLen(b, off)
  }

  ghost predicate ReadsSameClass(b: seq<byte>, r: seq<byte>, i: nat)
    requires DefsInFile(b) && DefsInFile(r) && SameClassDefs(b, r) && i < ClassDefsSize(b)
  {
    && ClassDataOff(r, i) == ClassDataOff(b, i)
    && (ClassDataOff(b, i) != 0 ==> ParseClassData(r, ClassDataOff(b, i)) == ParseClassData(b, ClassDataOff(b, i)))
  }

  /** The bytes a reader of classes depends on are the same, and items read the
      same. */
  ghost predicate Preserves(b: seq<byte>, r: seq<byte>)
    requires Sound(b)
  {
    && |b| <= |r|
    && Agree(b, r, 96, 104)
    && (forall i :: 0 <= i < ClassDefsSize(b) ==> SameLink(b, r, ClassDefAt(b, i)))
    && (forall off: u32 :: LiveData(b, off) ==> SameData(b, r, off))
    && (forall off: u32 :: LiveCode(b, off) ==> ReadsSameItem(b, r, off))
  }

  ghost predicate SameData(b: seq<byte>, r: seq<byte>, off: nat) {
    ParseClassData(b, off).Ok? && Agree(b, r, off, ParseClassData(b, off).value.1)
  }

  ghost predicate SameItemShape(b: seq<byte>, r: seq<byte>, off: u32) {
    CodeItemEnd(b, off).Ok? && SameShape(b, off, CodeItemEnd(b, off).value - off, r, off)
  }

  lemma SameShapeReads(b: seq<byte>, r: seq<byte>, off: u32)
    requires SameItemShape(b, r, off)
    ensures ReadsSameItem(b, r, off)
  {
    hide CodeItemEnd, InsnsLen, SameShape;
    CodeItemEndLocal(b, off, r, off);
  }

  lemma PreservedDefs(b: seq<byte>, r: seq<byte>)
    requires Sound(b) && Preserves(b, r)
    ensures DefsInFile(r) && SameClassDefs(b, r)
    ensures forall i :: 0 <= i < ClassDefsSize(b) ==> ClassDataOff(r, i) == ClassDataOff(b, i)
  {
    hide Le32, Agree, LiveData, LiveCode, ReadableClass, ClassDefAt;
    AgreeLe32(b, r, 96, 104, 96);
    AgreeLe32(b, r, 96, 104, 100);
    SameDefAt(b, r);
    forall i | 0 <= i < ClassDefsSize(b)
      ensures ClassDataOff(r, i) == ClassDataOff(b, i)
    {
      var at := ClassDefAt(b, i);
      assert SameLink(b, r, at);
      AgreeLe32(b, r, at + 24, at + 28, at + 24);
    }
  }

  /** Keeping those bytes keeps everything readable, to the same values. */
  lemma PreservedReadsSame(b: seq<byte>, r: seq<byte>)
    requires Sound(b) && Preserves(b, r)
    ensures ReadsSame(b, r)
  {
    hide Le32, Agree, ClassDefAt, CodeItemEnd, InsnsLen, ParseClassData, ReadsSameItem, CodeOffset;
    PreservedDefs(b, r);
    forall i | 0 <= i < ClassDefsSize(b)
      ensures ReadsSameClass(b, r, i)
    {
      var off := ClassDataOff(b, i);
      if off != 0 {
        assert LiveData(b, off);
        AgreeClassData(b, r, off, ParseClassData(b, off).value.1, off);
      }
    }
  }

  lemma ReadsSameMethods(b: seq<byte>, r: seq<byte>, i: nat)
    requires DefsInFile(b) && ReadsSame(b, r) && i < ClassDefsSize(b)
    ensures MethodsOf(r, i) == MethodsOf(b, i)
  {
    hide ParseClassData, Le32, LiveCode;
    assert ReadsSameClass(b, r, i);
  }

  lemma ReadsSameOffsets(b: seq<byte>, r: seq<byte>, off: u32)
    requires DefsInFile(b) && ReadsSame(b, r)
    ensures LiveData(r, off) <==> LiveData(b, off)
    ensures CodeOffset(r, off) <==> CodeOffset(b, off)
  {
    hide ParseClassData, Le32, LiveCode, MethodsOf;
    forall i | 0 <= i < ClassDefsSize(b)
      ensures MethodsOf(r, i) == MethodsOf(b, i) && ClassDataOff(r, i) == ClassDataOff(b, i)
    {
      ReadsSameMethods(b, r, i);
      assert ReadsSameClass(b, r, i);
    }
  }

  /** Health carries over to a file that reads the same. */
  lemma ReadsSameIsHealthy(b: seq<byte>, r: seq<byte>)
    requires Healthy(b) && ReadsSame(b, r)
    ensures Healthy(r)
    ensures forall off: u32 :: LiveCode(r, off) <==> LiveCode(b, off)
    ensures forall off: u32 :: LiveData(r, off) <==> LiveData(b, off)
  {
    hide ParseClassData, Le32, MethodsOf, CodeItemEnd, InsnsLen, CodeOffset, LiveData;
    forall off: u32
      ensures CodeOffset(r, off) <==> CodeOffset(b, off)
      ensures LiveData(r, off) <==> LiveData(b, off)
    {
      ReadsSameOffsets(b, r, off);
    }
    forall i | 0 <= i < ClassDefsSize(r)
      ensures ReadableClass(r, i)
    {
      assert ReadableClass(b, i) && ReadsSameClass(b, r, i);
    }
  }

  /** Reading the same composes. */
  lemma ReadsSameTrans(b: seq<byte>, r: seq<byte>, s: seq<byte>)
    requires Healthy(b) && ReadsSame(b, r) && ReadsSame(r, s)
    ensures ReadsSame(b, s)
  {
    hide ParseClassData, Le32, CodeItemEnd, InsnsLen, CodeOffset;
    ReadsSameIsHealthy(b, r);
    forall i | 0 <= i < ClassDefsSize(b)
      ensures ReadsSameClass(b, s, i)
    {
      assert ReadsSameClass(b, r, i) && ReadsSameClass(r, s, i);
    }
  }
}
