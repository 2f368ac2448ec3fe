/** The elements of a red-black tree. */
module RbNodes {
  import opened Sides

  datatype Color = Black | Red

  /** An element with its embedded tree entry. `key` is all that the comparison
      function of a tree looks at. */
  class Node<K> {
    var key: K
    var left: Node?<K>
    var right: Node?<K>
    var parent: Node?<K>
    var color: Color

    constructor (key: K)
      ensures this.key == key
      ensures left == null && right == null && parent == null
    {
      this.key := key;
      left, right, parent := null, null, null;
      color := Black;
    }

    function Kid(d: Side): Node?<K>
      reads this
    {
      if d.Left? then left else right
    }
  }
}
