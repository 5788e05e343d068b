/** The filesystem object that the rake tasks change in place. */
module Disk {
  import Files
  type Path = Files.Path
  /** The filesystem as the rake tasks see it, changed in place. */
  class FileSystem {
    var order: seq<Path>
    var nodes: map<Path, Files.Node>

    function State(): Files.Fs
      reads this
    {
      Files.Fs(order, nodes)
    }

    constructor (initial: Files.Fs)
      ensures State() == initial
    {
      order := initial.order;
      nodes := initial.nodes;
    }

    /** `File.exists?(p)`. */
    function Exists(p: Path): bool
      reads this
    {
      p in nodes
    }

    method Mkdir(p: Path)
      modifies this
      ensures State() == Files.Mkdir(old(State()), p)
    {
      if p !in nodes {
        order := order + [p];
        nodes := nodes[p := Files.Directory];
      }
    }

    method Write(p: Path, c: string)
      modifies this
      ensures State() == Files.Write(old(State()), p, c)
    {
      if p in nodes {
        nodes := nodes[p := Files.File(c, nodes[p].File? && nodes[p].executable)];
      } else {
        order := order + [p];
        nodes := nodes[p := Files.File(c, false)];
      }
    }

    method Chmod(p: Path)
      modifies this
      ensures State() == Files.Chmod(old(State()), p)
    {
      if p in nodes && nodes[p].File? {
        nodes := nodes[p := Files.File(nodes[p].content, true)];
      }
    }

    method RemoveTree(root: Path)
      modifies this
      ensures State() == Files.RemoveTree(old(State()), root)
    {
      order := Files.KeepOutside(order, root);
      nodes := map p | p in nodes && !Files.Under(p, root) :: nodes[p];
    }
  }
}
