/** `Dhamma`: the one-bit admin mode of the app. */
module Dhamma {

  /** The static flag, held by the one instance of this class. */
  class Dhamma {
    var admin: bool

    /** Admin mode starts off. */
    constructor ()
      ensures !admin
    {
      admin := false;
    }

    /** `isAdmin()`: reads the flag and changes nothing. */
    function IsAdmin(): (isAdmin: bool)
      reads this
      ensures isAdmin == admin
    {
      admin
    }

    /** `toggleAdmin()`: flips the flag and returns its new value. */
    method ToggleAdmin() returns (nowAdmin: bool)
      modifies this
      ensures admin == !old(admin)
      ensures nowAdmin == admin && nowAdmin == IsAdmin()
    {
      admin := !admin;
      nowAdmin := admin;
    }

    /** Two toggles in a row leave admin mode as it was, the first returning the flipped value. */
    method ToggleTwice() returns (first: bool, second: bool)
      modifies this
      ensures admin == old(admin)
      ensures first == !old(admin) && second == old(admin)
    {
      first := ToggleAdmin();
      second := ToggleAdmin();
    }
  }
}
