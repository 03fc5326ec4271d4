/**
 * An in-memory picture of the part of a file system the tool touches: a
 * directory maps entry names to files and subdirectories. File contents
 * are opaque text.
 */
module FileTree {

  /** The contents of a file; never inspected. */
  type Content = string

  datatype Node = File(content: Content) | Dir(children: map<string, Node>)

  /** The entries of one directory, by name. */
  type Tree = map<string, Node>

  /** A name a directory entry can carry: not empty, and without the path
      separator. */
  predicate ValidName(n: string) {
    n != "" && '/' !in n
  }

  /** Every entry name at every depth of `node` is a valid name. */
  predicate ValidNode(node: Node) {
    match node
    case File(_) => true
    case Dir(ch) => forall n :: n in ch ==> ValidName(n) && ValidNode(ch[n])
  }
}
