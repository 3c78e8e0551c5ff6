// A data page: a one-character identifier fixed at construction and the
// reference value that the clock strategies count up and down.

module Structure {

  class Page {
    const identifier: char
    // A `nat`: every update below is checked to keep it non-negative.
    var reference: nat

    constructor (identifier: char)
      ensures this.identifier == identifier && reference == 0
    {
      this.identifier := identifier;
      reference := 0;
    }

    function GetIdentifier(): char {
      identifier
    }

    function GetReference(): nat
      reads this
    {
      reference
    }

    /** Raises the reference value by one and returns the new value. */
    method IncrementReference() returns (r: nat)
      modifies this
      ensures reference == old(reference) + 1
      ensures r == reference
    {
      reference := reference + 1;
      r := reference;
    }

    /** Lowers a positive reference value by one (0 stays 0) and returns the new value. */
    method DecrementReference() returns (r: nat)
      modifies this
      ensures old(reference) > 0 ==> reference == old(reference) - 1
      ensures old(reference) == 0 ==> reference == 0
      ensures r == reference
    {
      if reference > 0 {
        reference := reference - 1;
      }
      r := reference;
    }

    method ResetReference()
      modifies this
      ensures reference == 0
    {
      reference := 0;
    }
  }
}
