/**
 A section of the configuration as an object: its lists are changed in place.
 */
module SectionList {
  import opened Lists
  import opened CText
  import opened Store

  class LpSection {
    var name: string
    var items: seq<Item>
    var params: seq<Param>
    var overwrite: bool
    var skip: bool

    ghost function Value(): Section
      reads this
    {
      Section(name, params, items, overwrite, skip)
    }

    constructor (name: string)
      ensures Value() == NewSection(name)
    {
      this.name, items, params, overwrite, skip := name, [], [], false, false;
    }

    /** lp_section_find_item and lp_section_find_comment. */
    method Find(slot: Slot) returns (i: nat)
      ensures i == FindSlot(items, slot)
    {
      i := 0;
      while i < |items| && items[i].Slot() != slot
        invariant i <= |items|
        invariant forall j :: 0 <= j < i ==> items[j].Slot() != slot
      {
        i := i + 1;
      }
    }
  }
}
