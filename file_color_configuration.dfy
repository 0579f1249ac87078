/**
 * FileColorConfiguration: a (scope name, color name) pair of the file colors
 * settings, stored as an XML child element with a "scope" and a "color"
 * attribute. A Java null is None; a NullPointerException is an Err.
 */
module FileColorConfiguration {
  import opened Wrappers
  import opened JavaLang

  const COLOR: string := "color"
  const SCOPE_NAME: string := "scope"
  /** FileColorsModel.FILE_COLOR, the tag of a saved configuration; its value comes from a class outside this model. */
  const FILE_COLOR: string := "fileColor"

  /** An XML element as a value: its tag, its attributes and its child elements. */
  datatype XmlElement = XmlElement(name: string, attributes: map<string, string>, children: seq<XmlElement>)

  /** A mutable XML element that a configuration is saved into. */
  class Element {
    var content: seq<XmlElement>

    constructor (content: seq<XmlElement>)
      ensures this.content == content
    {
      this.content := content;
    }
  }

  datatype NullPointer = NullPointer

  /** The child element save writes for a scope and a color. */
  function SavedChild(scopeName: string, colorName: string): (tab: XmlElement)
    ensures tab.name == FILE_COLOR && tab.children == []
    ensures tab.attributes.Keys == {SCOPE_NAME, COLOR}
    ensures tab.attributes[SCOPE_NAME] == scopeName && tab.attributes[COLOR] == colorName
  {
    XmlElement(FILE_COLOR, map[SCOPE_NAME := scopeName, COLOR := colorName], [])
  }

  /** The fields load reads: None when either attribute is missing. */
  function LoadedFields(e: XmlElement): (r: Option<(string, string)>)
    ensures r.None? <==> SCOPE_NAME !in e.attributes || COLOR !in e.attributes
    ensures r.Some? ==> r.value == (e.attributes[SCOPE_NAME], e.attributes[COLOR])
  {
    if SCOPE_NAME !in e.attributes then None
    else if COLOR !in e.attributes then None
    else Some((e.attributes[SCOPE_NAME], e.attributes[COLOR]))
  }

  /** Loading the child written for (scope, color) gives back exactly (scope, color). */
  lemma LoadSavedChild(scopeName: string, colorName: string)
    ensures LoadedFields(SavedChild(scopeName, colorName)) == Some((scopeName, colorName))
  {
    assert SCOPE_NAME != COLOR;
  }

  class FileColorConfiguration {
    var scopeName: Option<string>
    var colorName: Option<string>

    constructor ()
      ensures scopeName == None && colorName == None
    {
      scopeName := None;
      colorName := None;
    }

    constructor WithNames(scopeName: Option<string>, colorName: Option<string>)
      ensures this.scopeName == scopeName && this.colorName == colorName
    {
      this.scopeName := scopeName;
      this.colorName := colorName;
    }

    method SetScopeName(scopeName: Option<string>)
      modifies this
      ensures this.scopeName == scopeName && colorName == old(colorName)
    {
      this.scopeName := scopeName;
    }

    method SetColorName(colorName: Option<string>)
      modifies this
      ensures this.colorName == colorName && scopeName == old(scopeName)
    {
      this.colorName := colorName;
    }

    /** isValid: a non-empty scope name and some color name. */
    predicate IsValid()
      reads this
    {
      scopeName.Some? && |scopeName.value| > 0 && colorName.Some?
    }

    /** save: a valid configuration appends exactly one child to e; an invalid one changes nothing. */
    method Save(e: Element)
      modifies e
      ensures !IsValid() ==> e.content == old(e.content)
      ensures IsValid() ==> e.content == old(e.content) + [SavedChild(scopeName.value, colorName.value)]
    {
      if !IsValid() {
        return;
      }
      var tab := SavedChild(scopeName.value, colorName.value);
      e.content := e.content + [tab];
    }

    /**
     * equals: the same object, or a configuration with the same color and scope names. The
     * receiver's own null color (or, with equal colors, null scope) throws.
     */
    function Equals(o: FileColorConfiguration?): (r: Result<bool, NullPointer>)
      reads this, o
      ensures r.Err? <==> o != null && o != this && (colorName.None? || (o.colorName == colorName && scopeName.None?))
      ensures r == Ok(true) <==> o == this || (o != null && colorName.Some? && scopeName.Some?
                                               && o.colorName == colorName && o.scopeName == scopeName)
    {
      if this == o then Ok(true)
      else if o == null then Ok(false)
      else if colorName.None? then Err(NullPointer)
      else if Some(colorName.value) != o.colorName then Ok(false)
      else if scopeName.None? then Err(NullPointer)
      else if Some(scopeName.value) != o.scopeName then Ok(false)
      else Ok(true)
    }

    /** hashCode: 31 * scope hash + color hash in int arithmetic; a null field throws. */
    function HashCode(): (r: Result<int, NullPointer>)
      reads this
      ensures r.Err? <==> scopeName.None? || colorName.None?
      ensures r.Ok? ==> IsInt32(r.value)
    {
      if scopeName.None? || colorName.None? then Err(NullPointer)
      else Ok(Mul31Add(StringHashCode(scopeName.value), StringHashCode(colorName.value)))
    }

    /** clone: a new configuration with the same two names. */
    method Clone() returns (result: FileColorConfiguration)
      ensures fresh(result)
      ensures result.scopeName == scopeName && result.colorName == colorName
    {
      result := new FileColorConfiguration();
      result.colorName := colorName;
      result.scopeName := scopeName;
    }
  }

  /** Equal configurations whose hash codes are defined have the same hash code. */
  lemma EqualsImpliesSameHashCode(a: FileColorConfiguration, b: FileColorConfiguration)
    requires a.Equals(b) == Ok(true) && a.HashCode().Ok?
    ensures b.HashCode() == a.HashCode()
  {
  }

  /** A clone of a configuration whose names are set equals the original. */
  lemma CloneEqualsOriginal(original: FileColorConfiguration, copy: FileColorConfiguration)
    requires original.scopeName.Some? && original.colorName.Some?
    requires copy.scopeName == original.scopeName && copy.colorName == original.colorName
    ensures original.Equals(copy) == Ok(true) && copy.Equals(original) == Ok(true)
  {
  }

  /** load: a configuration with the element's scope and color, or null when either attribute is missing. */
  method Load(e: XmlElement) returns (c: FileColorConfiguration?)
    ensures c == null <==> LoadedFields(e).None?
    ensures c != null ==> fresh(c) && c.scopeName == Some(LoadedFields(e).value.0)
                                    && c.colorName == Some(LoadedFields(e).value.1)
  {
    if SCOPE_NAME !in e.attributes {
      return null;
    }
    var path := e.attributes[SCOPE_NAME];
    if COLOR !in e.attributes {
      return null;
    }
    var colorName := e.attributes[COLOR];
    c := new FileColorConfiguration.WithNames(Some(path), Some(colorName));
  }

  /** Round trip: what load builds from the child saved for a valid configuration equals that configuration. */
  lemma ReloadEqualsOriginal(original: FileColorConfiguration, reloaded: FileColorConfiguration)
    requires original.IsValid()
    requires reloaded.scopeName.Some? && reloaded.colorName.Some?
    requires LoadedFields(SavedChild(original.scopeName.value, original.colorName.value)) ==
             Some((reloaded.scopeName.value, reloaded.colorName.value))
    ensures original.Equals(reloaded) == Ok(true) && reloaded.IsValid()
  {
    LoadSavedChild(original.scopeName.value, original.colorName.value);
  }
}
