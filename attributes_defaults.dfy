/**
 * AttributesDefaults: the defaults a file-template action offers, namely a
 * default file name with an optional selection range, and a table from
 * attribute key to a default value with an optional selection range.
 * A Java null is None.
 */
module AttributesDefaults {
  import opened Wrappers

  datatype TextRange = TextRange(startOffset: int, endOffset: int)

  class AttributesDefaults {
    const defaultName: Option<string>
    const defaultRange: Option<TextRange>
    var namesToValueAndRange: map<string, (string, Option<TextRange>)>

    constructor (defaultName: Option<string>, defaultRange: Option<TextRange>)
      ensures this.defaultName == defaultName && this.defaultRange == defaultRange
      ensures namesToValueAndRange == map[]
    {
      this.defaultName := defaultName;
      this.defaultRange := defaultRange;
      namesToValueAndRange := map[];
    }

    /** The one-argument constructor: no default selection range. */
    constructor WithName(defaultName: Option<string>)
      ensures this.defaultName == defaultName && defaultRange == None
      ensures namesToValueAndRange == map[]
    {
      this.defaultName := defaultName;
      defaultRange := None;
      namesToValueAndRange := map[];
    }

    /** The no-argument constructor: neither a default name nor a range. */
    constructor NoDefaults()
      ensures defaultName == None && defaultRange == None
      ensures namesToValueAndRange == map[]
    {
      defaultName := None;
      defaultRange := None;
      namesToValueAndRange := map[];
    }

    function GetDefaultFileName(): (r: Option<string>)
      ensures r == defaultName
    {
      defaultName
    }

    function GetDefaultFileNameSelection(): (r: Option<TextRange>)
      ensures r == defaultRange
    {
      defaultRange
    }

    /** add(key, value, range): stores the pair under key, replacing any earlier one. */
    method Add(attributeKey: string, value: string, selectionRange: Option<TextRange>)
      modifies this
      ensures namesToValueAndRange == old(namesToValueAndRange)[attributeKey := (value, selectionRange)]
      ensures GetDefaultValueFor(attributeKey) == Some(value) && GetRangeFor(attributeKey) == selectionRange
      ensures forall k :: k != attributeKey ==>
        GetDefaultValueFor(k) == old(GetDefaultValueFor(k)) && GetRangeFor(k) == old(GetRangeFor(k))
    {
      namesToValueAndRange := namesToValueAndRange[attributeKey := (value, selectionRange)];
    }

    /** add(key, value): the same with no selection range. */
    method AddValue(attributeKey: string, value: string)
      modifies this
      ensures namesToValueAndRange == old(namesToValueAndRange)[attributeKey := (value, None)]
      ensures GetDefaultValueFor(attributeKey) == Some(value) && GetRangeFor(attributeKey) == None
    {
      Add(attributeKey, value, None);
    }

    /** getRangeFor: the range stored with the key; None for an unknown key or a key added without one. */
    function GetRangeFor(attributeKey: string): (r: Option<TextRange>)
      reads this
      ensures attributeKey !in namesToValueAndRange ==> r == None
      ensures r.Some? ==> attributeKey in namesToValueAndRange && namesToValueAndRange[attributeKey].1 == r
    {
      if attributeKey in namesToValueAndRange then namesToValueAndRange[attributeKey].1 else None
    }

    /** getDefaultValueFor: the value stored with the key; None exactly for an unknown key. */
    function GetDefaultValueFor(attributeKey: string): (r: Option<string>)
      reads this
      ensures r.None? <==> attributeKey !in namesToValueAndRange
      ensures r.Some? ==> namesToValueAndRange[attributeKey].0 == r.value
    {
      if attributeKey in namesToValueAndRange then Some(namesToValueAndRange[attributeKey].0) else None
    }
  }
}
