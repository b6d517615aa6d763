/**
  The part of the disk the update manager owns: two state files and two firmware slots. `Image` is its
  contents; `Disk` is the disk as the manager writes it, with the trail of images that passed over it.
 */
module OtaDisk {
  import opened Bytes
  import opened Manifest
  import opened Numbers
  import opened Options

  type Files = map<Text, seq<bv8>>

  /** A slot: its files, and the version under which it was last written (a history value; 0 when emptied). */
  datatype Slot = Slot(files: Files, release: nat)

  datatype Image = Image(activeFile: Option<Text>, versionFile: Option<Text>, slots: map<Text, Slot>)

  const SLOT_A: Text := "a"
  const SLOT_B: Text := "b"
  const ZERO: Text := "0"

  function FirstLineOf(t: Text): (l: Text)
    ensures OneLine(t) ==> l == t
  {
    if t == [] || t[0] == NEWLINE then [] else [t[0]] + FirstLineOf(t[1..])
  }

  /** A state file's first line; the fallback when the file is missing or that line is empty. */
  function ReadState(file: Option<Text>, fallback: Text): Text {
    if file.None? || FirstLineOf(file.value) == [] then fallback else FirstLineOf(file.value)
  }

  function ActiveSlot(img: Image): Text {
    ReadState(img.activeFile, SLOT_A)
  }

  function InactiveSlot(img: Image): (s: Text)
    ensures s != ActiveSlot(img)
  {
    if ActiveSlot(img) == SLOT_A then SLOT_B else SLOT_A
  }

  function InstalledVersion(img: Image): nat {
    var v := Stoull(ReadState(img.versionFile, ZERO));
    if v.None? then 0 else v.value
  }

  function SlotOf(img: Image, slot: Text): Slot {
    if slot in img.slots then img.slots[slot] else Slot(map[], 0)
  }

  function PutSlot(img: Image, slot: Text, content: Slot): Image {
    img.(slots := img.slots[slot := content])
  }

  /** The images while a slot is rewritten in several steps, given what it holds after each of them. */
  function SlotStages(img: Image, slot: Text, stages: seq<Slot>): (t: seq<Image>)
    ensures |t| == |stages|
  {
    seq(|stages|, i requires 0 <= i < |stages| => PutSlot(img, slot, stages[i]))
  }

  /** A state file is read up to its first line break. */
  lemma {:induction false} FirstLineExactly(a: Text, b: Text)
    requires OneLine(a)
    ensures FirstLineOf(a) == a && FirstLineOf(a + ([NEWLINE] + b)) == a
  {
    if a == [] {
      assert a + ([NEWLINE] + b) == [NEWLINE] + b;
    } else {
      assert (a + ([NEWLINE] + b))[1..] == a[1..] + ([NEWLINE] + b);
      assert a == [a[0]] + a[1..];
      FirstLineExactly(a[1..], b);
    }
  }

  /**
    Without a state file, or with an empty first line, slot a is active and the version is 0; so it is when the
    version does not begin with a number. The inactive slot is b exactly when a is active.
   */
  lemma StateDefaults(img: Image)
    ensures img.activeFile.None? || FirstLineOf(img.activeFile.value) == [] ==> ActiveSlot(img) == "a"
    ensures img.versionFile.None? || FirstLineOf(img.versionFile.value) == [] ==> InstalledVersion(img) == 0
    ensures img.versionFile.Some? && FirstLineOf(img.versionFile.value) != []
            ==> var v := Stoull(FirstLineOf(img.versionFile.value));
                InstalledVersion(img) == if v.Some? then v.value else 0
    ensures img.activeFile.Some? && FirstLineOf(img.activeFile.value) != []
            ==> ActiveSlot(img) == FirstLineOf(img.activeFile.value)
    ensures InactiveSlot(img) == if ActiveSlot(img) == "a" then "b" else "a"
  {
    ZeroIsNumber();
    hide Stoull, FirstLineOf;
  }

  lemma ZeroIsNumber()
    ensures Stoull(ZERO) == Some(0)
  {
    assert ZERO == Decimal(0);
    StoullOfDecimal(0);
  }

  lemma SlotNamesReadBack(img: Image, slot: Text)
    requires slot == SLOT_A || slot == SLOT_B
    ensures ActiveSlot(img.(activeFile := Some(slot))) == slot
  {
    assert OneLine(SLOT_A) && OneLine(SLOT_B);
  }

  lemma VersionReadsBack(img: Image, v: nat)
    requires v < TWO_64
    ensures InstalledVersion(img.(versionFile := Some(Decimal(v)))) == v
  {
    hide Stoull;
    DecimalOneLine(v);
    StoullOfDecimal(v);
  }

  class Disk {
    var activeFile: Option<Text>
    var versionFile: Option<Text>
    var slots: map<Text, Slot>
    ghost var trail: seq<Image>

    function View(): Image
      reads this
    {
      Image(activeFile, versionFile, slots)
    }

    method WriteActive(value: Text)
      modifies this
      ensures View() == old(View()).(activeFile := Some(value))
      ensures trail == old(trail) + [View()]
    {
      activeFile := Some(value);
      trail := trail + [View()];
    }

    method WriteVersion(value: Text)
      modifies this
      ensures View() == old(View()).(versionFile := Some(value))
      ensures trail == old(trail) + [View()]
    {
      versionFile := Some(value);
      trail := trail + [View()];
    }

    /** Rewrites a slot; `stages` is whatever it holds on the way. */
    method WriteSlot(slot: Text, content: Slot, ghost stages: seq<Slot>)
      modifies this
      ensures View() == PutSlot(old(View()), slot, content)
      ensures trail == old(trail) + SlotStages(old(View()), slot, stages + [content])
    {
      trail := trail + SlotStages(View(), slot, stages + [content]);
      slots := slots[slot := content];
    }
  }
}
