/** The destination path of a plain copy, which `CopyThread._copy_files`
    (src/copy_thread.py), the src `Worker.run` (src/worker.py) and the root
    `Worker.run` (worker.py) compute alike: `to/name`, or the disk resolver's
    answer when that exists. */
module CopyStep {
  import opened Paths
  import opened Disk
  import opened Naming
  import opened Transfer

  /** `dest_path = os.path.join(to, name)`, replaced by the disk resolver's
      answer when it exists. */
  method DestinationOfName(fs: FileSystem, to: string, name: string) returns (destPath: string)
    ensures destPath == Destination(fs.paths, to, name, 2)
    ensures destPath !in fs.paths
  {
    DestinationOfJoin(fs.paths, to, name);
    destPath := Join(to, name);
    if destPath in fs.paths {
      destPath := UniqueDiskName(fs, destPath);
    }
  }

  /** The same for a source path: `name` is its basename. */
  method DestinationFor(fs: FileSystem, to: string, file: string) returns (destPath: string)
    ensures destPath == Destination(fs.paths, to, file, 3)
    ensures destPath !in fs.paths
  {
    var filename := Basename(file);
    destPath := DestinationOfName(fs, to, filename);
  }
}
