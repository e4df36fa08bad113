/** server/shared/.../shared/Colours: the three colours the server offers. */
module ServerColours {
  import opened Wrappers
  import opened JavaStrings

  /** AVAILABLE_COLOURS, returned as is by getAvailableColours. */
  const AvailableColours: seq<string> := ["RED", "BLUE", "GREEN"]

  /** isValidColour: null is rejected; otherwise a case-insensitive match against the list. */
  function IsValidColour(colourName: Option<string>): (r: bool)
    ensures r <==> colourName.Some? && UpperAscii(colourName.value) in AvailableColours
  {
    if colourName.None? then
      false
    else
      assert UpperAscii("RED") == "RED";
      assert UpperAscii("BLUE") == "BLUE";
      assert UpperAscii("GREEN") == "GREEN";
      AnyEqualsIgnoreCaseUpper(AvailableColours, colourName.value);
      AnyEqualsIgnoreCase(AvailableColours, colourName.value)
  }

  /** getDefaultColour. */
  function GetDefaultColour(): (r: string)
    ensures r == "RED"
    ensures IsValidColour(Some(r))
  {
    assert UpperAscii("RED") == "RED";
    "RED"
  }

  /** The list is exactly RED, BLUE, GREEN, in that order, and each entry is accepted in any case. */
  lemma AvailableColoursAccepted(s: string)
    ensures AvailableColours == ["RED", "BLUE", "GREEN"]
    ensures s in AvailableColours ==> IsValidColour(Some(s))
    ensures IsValidColour(Some(s)) <==> EqualsIgnoreCase(s, "RED") || EqualsIgnoreCase(s, "BLUE") || EqualsIgnoreCase(s, "GREEN")
  {
    assert UpperAscii("RED") == "RED";
    assert UpperAscii("BLUE") == "BLUE";
    assert UpperAscii("GREEN") == "GREEN";
    EqualsIgnoreCaseIffUpper(s, "RED");
    EqualsIgnoreCaseIffUpper(s, "BLUE");
    EqualsIgnoreCaseIffUpper(s, "GREEN");
  }
}

/** shared/src/.../shared/Colours: the ten-colour client-side list. */
module SharedColours {
  import opened Wrappers
  import opened JavaStrings

  /** AVAILABLE_COLORS, returned as is by getAvailableColors. */
  const AvailableColors: seq<string> :=
    ["RED", "ORANGE", "YELLOW", "GREEN", "BLUE", "PURPLE", "PINK", "WHITE", "GRAY", "BROWN"]

  lemma AvailableColorsUpper()
    ensures forall i :: 0 <= i < |AvailableColors| ==> UpperAscii(AvailableColors[i]) == AvailableColors[i]
  {
    assert UpperAscii("RED") == "RED";
    assert UpperAscii("ORANGE") == "ORANGE";
    assert UpperAscii("YELLOW") == "YELLOW";
    assert UpperAscii("GREEN") == "GREEN";
    assert UpperAscii("BLUE") == "BLUE";
    assert UpperAscii("PURPLE") == "PURPLE";
    assert UpperAscii("PINK") == "PINK";
    assert UpperAscii("WHITE") == "WHITE";
    assert UpperAscii("GRAY") == "GRAY";
    assert UpperAscii("BROWN") == "BROWN";
  }

  /** isValidColor: null is rejected; otherwise a case-insensitive match against the list. */
  function IsValidColor(colorName: Option<string>): (r: bool)
    ensures r <==> colorName.Some? && UpperAscii(colorName.value) in AvailableColors
  {
    if colorName.None? then
      false
    else
      AvailableColorsUpper();
      AnyEqualsIgnoreCaseUpper(AvailableColors, colorName.value);
      AnyEqualsIgnoreCase(AvailableColors, colorName.value)
  }

  /** getDefaultColor. */
  function GetDefaultColor(): (r: string)
    ensures r == "WHITE"
    ensures IsValidColor(Some(r))
  {
    assert UpperAscii("WHITE") == "WHITE";
    "WHITE"
  }

  /**
   * The list is the ten names in declaration order, and a name is accepted
   * exactly when it equals one of them, ignoring case.
   */
  lemma AvailableColorsAccepted(s: string)
    ensures AvailableColors == ["RED", "ORANGE", "YELLOW", "GREEN", "BLUE", "PURPLE", "PINK", "WHITE", "GRAY", "BROWN"]
    ensures IsValidColor(Some(s)) <==>
      exists i :: 0 <= i < |AvailableColors| && EqualsIgnoreCase(s, AvailableColors[i])
  {
    AvailableColorsUpper();
    forall i | 0 <= i < |AvailableColors|
      ensures EqualsIgnoreCase(s, AvailableColors[i]) <==> UpperAscii(s) == AvailableColors[i]
    {
      EqualsIgnoreCaseIffUpper(s, AvailableColors[i]);
    }
    if IsValidColor(Some(s)) {
      var i :| 0 <= i < |AvailableColors| && AvailableColors[i] == UpperAscii(s);
      assert EqualsIgnoreCase(s, AvailableColors[i]);
    }
  }
}
