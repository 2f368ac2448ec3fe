/** The two sides of a binary tree node. */
module Sides {

  datatype Side = Left | Right {
    function Opp(): Side {
      if Left? then Right else Left
    }
  }
}
