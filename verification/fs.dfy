/**
  * The part of the machine the commands touch: text files by path, the
  * directories `mkdir` has made, and the number of headless-browser
  * processes left running. Which paths cannot be written is a parameter
  * (`denied`), standing in for permissions, missing devices and full disks.
  */
module Fs {
  import opened Text
  import Paths

  datatype World = World(files: map<Str, Str>, dirs: set<Str>, browsers: nat)

  /** Why an effect failed: a path that could not be written, or the browser's own error. */
  datatype Fault = Denied(path: Str) | BrowserFault(reason: Str)

  /** What an effect leaves behind: the world, and the fault that stopped it, if any. */
  datatype Step = Done(world: World) | Broke(fault: Fault, world: World)

  /** Recursive `mkdir`: makes the directory, or fails on a denied path. */
  function Mkdir(w: World, denied: set<Str>, dir: Str): (r: Step)
    ensures r.Broke? <==> dir in denied
    ensures r.Broke? ==> r == Broke(Denied(dir), w)
    ensures r.Done? ==> r.world == w.(dirs := w.dirs + {dir})
  {
    if dir in denied then Broke(Denied(dir), w) else Done(w.(dirs := w.dirs + {dir}))
  }

  /** `writeFile(path, content)`: replaces whatever the path held. */
  function WriteFile(w: World, denied: set<Str>, path: Str, content: Str): (r: Step)
    ensures r.Broke? <==> path in denied
    ensures r.Broke? ==> r == Broke(Denied(path), w)
    ensures r.Done? ==> r.world == w.(files := w.files[path := content])
  {
    if path in denied then Broke(Denied(path), w) else Done(w.(files := w.files[path := content]))
  }

  /** Make the file's parent directory, then write the file. */
  function WriteWithParent(w: World, denied: set<Str>, path: Str, content: Str): (r: Step)
    ensures r.Done? <==> Paths.DirName(path) !in denied && path !in denied
    ensures r.Done? ==> r.world == World(w.files[path := content], w.dirs + {Paths.DirName(path)}, w.browsers)
    ensures r.Broke? ==> r.world.files == w.files && r.world.browsers == w.browsers
    ensures r.Broke? ==> r.fault == Denied(if Paths.DirName(path) in denied then Paths.DirName(path) else path)
  {
    var made := Mkdir(w, denied, Paths.DirName(path));
    if made.Broke? then made else WriteFile(made.world, denied, path, content)
  }
}
