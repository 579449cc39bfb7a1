/** The part of the outside world the extractor changes: directories it
    creates and files it writes, keyed by path. File contents are values; how
    they are encoded on disk (text encoding, JSON serialisation) is not part
    of this model. */
module FileStore {
  type Path = string

  /** The bytes `codecs.decode(…, 'uu')` returns. */
  newtype Byte = x: int | 0 <= x < 256
  type Bytes = seq<Byte>

  /** A YAML or JSON value, as `yaml.safe_load` returns it and `json.dump`
      accepts it. */
  datatype Value =
    | Null
    | Bool(b: bool)
    | Int(i: int)
    | Str(s: string)
    | List(items: seq<Value>)
    | Dict(entries: map<string, Value>)

  /** Python truthiness of a loaded value (`if not self.header`). */
  predicate Truthy(v: Value)
  {
    match v
    case Null => false
    case Bool(b) => b
    case Int(i) => i != 0
    case Str(s) => |s| > 0
    case List(items) => |items| > 0
    case Dict(entries) => |entries| > 0
  }

  /** What a write leaves at a path: text written with mode `w`, bytes
      written with mode `wb`, or a JSON document. */
  datatype File = TextFile(text: string) | BinaryFile(data: Bytes) | JsonFile(json: Value)

  /** `parent / name` for a `pathlib.Path`: an absolute name replaces the
      parent, an empty name leaves it, and an empty parent (`Path('')`,
      the current directory) contributes nothing. */
  function JoinPath(parent: Path, name: string): Path
  {
    if |name| > 0 && name[0] == '/' then name
    else if |name| == 0 then parent
    else if |parent| == 0 then name
    else parent + "/" + name
  }

  /** A relative name stays below its (non-empty) parent directory, and two
      relative names give two different paths. */
  lemma JoinStaysInside(parent: Path, name: string, other: string)
    requires |parent| > 0 && |name| > 0 && name[0] != '/'
    requires |other| > 0 && other[0] != '/'
    ensures JoinPath(parent, name)[..|parent| + 1] == parent + "/"
    ensures JoinPath(parent, name)[|parent| + 1..] == name
    ensures JoinPath(parent, name) == JoinPath(parent, other) <==> name == other
  {
    var p, q := JoinPath(parent, name), JoinPath(parent, other);
    assert p[|parent| + 1..] == name && q[|parent| + 1..] == other;
  }

  /** The directories and files the extractor has made. */
  class FileSystem {
    var dirs: set<Path>
    var files: map<Path, File>

    constructor()
      ensures dirs == {} && files == map[]
    {
      dirs := {};
      files := map[];
    }

    /** `path.mkdir(exist_ok=True)`. */
    method MakeDir(path: Path)
      modifies this
      ensures dirs == old(dirs) + {path} && files == old(files)
    {
      dirs := dirs + {path};
    }

    /** `open(path, mode)` followed by `write`: whatever was at `path` is
        replaced, every other path is untouched. */
    method Write(path: Path, file: File)
      modifies this
      ensures files == old(files)[path := file] && dirs == old(dirs)
    {
      files := files[path := file];
    }
  }
}
