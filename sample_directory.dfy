/**
 * The directory fixture of the flatten tests (data/sample-directory.ts):
 * three top-level folders holding 42 entries in all, counting the folders.
 */
module SampleDirectory {
  import opened Optional
  import opened Flattening
  import opened TreeItems

  function File(name: string): Node<string> {
    Node(name, [])
  }

  function Folder(name: string, entries: seq<Node<string>>): Node<string> {
    Node(name, entries)
  }

  /** A run of files, in order; it counts one entry per file. */
  function Files(names: seq<string>): (r: seq<Node<string>>)
    ensures |r| == |names| && Count(r) == |names|
    decreases |names|
  {
    if names == [] then []
    else
      var rest := Files(names[1..]);
      assert ([File(names[0])] + rest)[1..] == rest;
      [File(names[0])] + rest
  }

  /** The Projects folder: four files and two folders of three, 11 entries below it. */
  function Projects(): (n: Node<string>)
    ensures Count(n.children) == 11
  {
    var entries := [
      File("project-1.docx"),
      File("project-2.docx"),
      Folder("project-3", Files(["project-3A.docx", "project-3B.docx", "project-3C.docx"])),
      File("project-4.docx"),
      Folder("project-5", Files(["project-5A.docx", "project-5B.docx", "project-5C.docx"]))
    ];
    Count5(entries);
    Folder("Projects", entries)
  }

  /** The Reports folder: three folders of 3, 4 and 4 files, 14 entries below it. */
  function Reports(): (n: Node<string>)
    ensures Count(n.children) == 14
  {
    var entries := [
      Folder("report-1", Files(["report-1A.docx", "report-1B.docx", "report-1C.docx"])),
      Folder("report-2", Files(["report-2A.docx", "report-2B.docx", "report-2C.docx", "report-2D.docx"])),
      Folder("report-3", Files(["report-3A.docx", "report-3B.docx", "report-3C.docx", "report-3D.docx"]))
    ];
    Count3(entries);
    Folder("Reports", entries)
  }

  /** The Letters folder: three folders of 3, 4 and 4 files, 14 entries below it. */
  function Letters(): (n: Node<string>)
    ensures Count(n.children) == 14
  {
    var entries := [
      Folder("letter-1", Files(["letter-1A.docx", "letter-1B.docx", "letter-1C.docx"])),
      Folder("letter-2", Files(["letter-2A.docx", "letter-2B.docx", "letter-2C.docx", "letter-2D.docx"])),
      Folder("letter-3", Files(["letter-3A.docx", "letter-3B.docx", "letter-3C.docx", "letter-3D.docx"]))
    ];
    Count3(entries);
    Folder("Letters", entries)
  }

  /** The three top-level folders, 42 entries in all, counting the folders. */
  function DirectoryStructure(): (r: seq<Node<string>>)
    ensures Count(r) == 42
  {
    var projects, reports, letters := Projects(), Reports(), Letters();
    CountOf3(projects, reports, letters);
    [projects, reports, letters]
  }

  /** Three siblings count themselves and their subtrees. */
  lemma CountOf3<P>(a: Node<P>, b: Node<P>, c: Node<P>)
    ensures Count([a, b, c]) == 3 + Count(a.children) + Count(b.children) + Count(c.children)
  {
    Count3([a, b, c]);
  }

  /** A list of three siblings counts them and their subtrees. */
  lemma Count3<P>(e: seq<Node<P>>)
    requires |e| == 3
    ensures Count(e) == 3 + Count(e[0].children) + Count(e[1].children) + Count(e[2].children)
  {
    assert e[1..][0] == e[1] && e[1..][1..][0] == e[2] && e[1..][1..][1..] == [];
    assert Count(e[1..][1..]) == 1 + Count(e[2].children);
  }

  /** Five siblings count themselves and their subtrees. */
  lemma Count5<P>(e: seq<Node<P>>)
    requires |e| == 5
    ensures Count(e) ==
            5 + Count(e[0].children) + Count(e[1].children) + Count(e[2].children) +
            Count(e[3].children) + Count(e[4].children)
  {
    Count3(e[2..]);
    assert e[1..][0] == e[1] && e[1..][1..] == e[2..];
  }

  /** flatten on an empty array yields nothing; on the fixture, 42 items. */
  method FlattenFixtures(uuid: nat -> string) returns (none: seq<TreeItem<Node<string>>>,
                                                      all: seq<TreeItem<Node<string>>>)
    ensures |none| == 0
    ensures |all| == 42
  {
    var empty: seq<Node<string>> := [];
    none := FlattenForest(uuid, empty);
    all := FlattenForest(uuid, DirectoryStructure());
  }
}
