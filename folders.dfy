/** The output-folder helpers both `FileCopy` classes carry
    (src/file_copy.py and file_copy.py, identical there): a random name of
    ASCII letters and digits, and a `folder_<name>` directory next to the
    source folder. */
module Folders {
  import opened Paths
  import opened Disk
  import opened Results

  /** `n` consecutive characters from `first` on. */
  function CharRange(first: char, n: nat): (r: string)
    requires first as int + n <= 0xD800
    ensures |r| == n
    ensures forall i :: 0 <= i < n ==> r[i] as int == first as int + i
  {
    seq(n, i requires 0 <= i < n => (first as int + i) as char)
  }

  /** `string.ascii_letters + string.digits`: a-z, A-Z, 0-9. */
  const Characters: string := CharRange('a', 26) + CharRange('A', 26) + CharRange('0', 10)

  /** An ASCII letter or digit. */
  predicate IsAlnum(c: char) {
    'a' <= c <= 'z' || 'A' <= c <= 'Z' || '0' <= c <= '9'
  }

  /** The alphabet is exactly the 62 ASCII letters and digits. */
  lemma CharactersAreAlnum(c: char)
    ensures |Characters| == 62
    ensures c in Characters <==> IsAlnum(c)
  {
    var lower, upper, digits := CharRange('a', 26), CharRange('A', 26), CharRange('0', 10);
    assert Characters == lower + upper + digits;
    if 'a' <= c <= 'z' {
      assert lower[c as int - 'a' as int] == c;
    } else if 'A' <= c <= 'Z' {
      assert upper[c as int - 'A' as int] == c;
    } else if '0' <= c <= '9' {
      assert digits[c as int - '0' as int] == c;
    } else {
      assert c !in lower && c !in upper && c !in digits;
    }
  }

  /** A possible result of `generate_unique_name(length)`. */
  predicate UniqueName(name: string, length: nat) {
    |name| == length && forall i :: 0 <= i < |name| ==> IsAlnum(name[i])
  }

  /** `generate_unique_name(length=5)`: `length` independent draws from the
      alphabet. The draw is left open: any letter or digit may come. */
  method GenerateUniqueName(length: nat := 5) returns (uniqueName: string)
    ensures UniqueName(uniqueName, length)
  {
    uniqueName := "";
    CharactersAreAlnum('a');
    var k := 0;
    while k < length
      invariant k <= length && UniqueName(uniqueName, k)
    {
      var c :| c in Characters;
      CharactersAreAlnum(c);
      uniqueName := uniqueName + [c];
      k := k + 1;
    }
  }

  /** `os.path.join(source_folder_path, "..", "folder_" + name)`. */
  function FolderPath(sourceFolderPath: string, name: string): string {
    Join(Join(sourceFolderPath, ".."), "folder_" + name)
  }

  /** The folder sits in the source's parent (`source/..`), and its own
      name is `folder_<name>`. */
  lemma FolderPathShape(sourceFolderPath: string, name: string)
    requires '/' !in name
    ensures FolderPath(sourceFolderPath, name) == Join(sourceFolderPath, "..") + "/" + "folder_" + name
    ensures Basename(FolderPath(sourceFolderPath, name)) == "folder_" + name
  {
    var parent := Join(sourceFolderPath, "..");
    assert parent[|parent| - 1] == '.';
    assert '/' !in "folder_";
    assert '/' !in "folder_" + name;
    BasenameOfJoin(parent, "folder_" + name);
  }

  /** Different names give different folders. */
  lemma FolderPathInjective(sourceFolderPath: string, a: string, b: string)
    requires FolderPath(sourceFolderPath, a) == FolderPath(sourceFolderPath, b)
    ensures a == b
  {
    var parent := Join(sourceFolderPath, "..");
    assert parent[|parent| - 1] == '.';
    var n := |parent + "/" + "folder_"|;
    assert FolderPath(sourceFolderPath, a) == parent + "/" + "folder_" + a;
    assert FolderPath(sourceFolderPath, b) == parent + "/" + "folder_" + b;
    assert a == FolderPath(sourceFolderPath, a)[n..];
  }

  /** A generated name has no separator, so the shape above applies. */
  lemma UniqueNameHasNoSeparator(name: string, length: nat)
    requires UniqueName(name, length)
    ensures '/' !in name
  {
    forall i | 0 <= i < |name|
      ensures name[i] != '/'
    {
      assert IsAlnum(name[i]);
    }
  }

  /** `create_folder`: makes `source/../folder_<name>` for a fresh random
      name and returns its path; `os.makedirs` raises `FileExistsError`
      when that path exists. */
  method CreateFolder(fs: FileSystem, sourceFolderPath: string)
      returns (folderPath: string, outcome: Outcome, ghost name: string)
    modifies fs`paths
    ensures UniqueName(name, 5)
    ensures folderPath == FolderPath(sourceFolderPath, name)
    ensures outcome == if folderPath in old(fs.paths) then Fail(FileExistsError(folderPath)) else Pass
    ensures fs.paths == old(fs.paths) + {folderPath}
  {
    var uniqueName := GenerateUniqueName();
    name := uniqueName;
    var folderName := "folder_" + uniqueName;
    folderPath := Join(Join(sourceFolderPath, ".."), folderName);
    var ok := fs.MakeDirs(folderPath);
    outcome := if ok then Pass else Fail(FileExistsError(folderPath));
  }
}
