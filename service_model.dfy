/**
 * Values shared by the reconciliation of blocked services: the declared service
 * records, the descriptors of the YAML files found on disk, the file names the
 * records are written under, and the list formatting used by the warning.
 */
module ServiceModel {

  datatype Option<+T> = None | Some(value: T)

  datatype Result<+T, +E> = Success(value: T) | Failure(error: E)

  /** The text of one service definition file. */
  type Content = string

  /**
   * One declared blocked service: its `id` and its other JSON fields
   * (name, rules, categories, icon, ...), each kept as its JSON text.
   */
  datatype Service = Service(id: string, fields: map<string, string>)

  /**
   * A descriptor of one YAML file already in the services directory: the `id`
   * written inside the file (not its file name) and the file's content.
   */
  datatype ServiceFile = ServiceFile(id: string, content: Content)

  const YmlFileExtension: string := ".yml"

  /** The name a service's definition file is written under: `<id>.yml`. */
  function FileName(id: string): string
  {
    id + YmlFileExtension
  }

  /** Distinct ids never share a definition file. */
  lemma FileNameInjective(a: string, b: string)
    ensures FileName(a) == FileName(b) <==> a == b
  {
    if FileName(a) == FileName(b) {
      assert |a| == |b|;
      assert a == FileName(a)[..|a|];
      assert b == FileName(b)[..|b|];
    }
  }

  /**
   * `Array.prototype.find` over the descriptors, looking for the first one
   * whose `id` equals `id`.
   */
  function Find(files: seq<ServiceFile>, id: string): (r: Option<ServiceFile>)
    ensures r.None? <==> forall i :: 0 <= i < |files| ==> files[i].id != id
    ensures r.Some? ==> exists i :: 0 <= i < |files| && files[i] == r.value && r.value.id == id
                                   && forall j :: 0 <= j < i ==> files[j].id != id
  {
    if |files| == 0 then None
    else if files[0].id == id then Some(files[0])
    else
      var r := Find(files[1..], id);
      assert forall i :: 1 <= i < |files| ==> files[i] == files[1..][i - 1];
      r
  }

  /** The ids of a list of services, in order (`map(d => d.id)`). */
  function Ids(services: seq<Service>): seq<string>
  {
    seq(|services|, i requires 0 <= i < |services| => services[i].id)
  }

  /** `Array.prototype.join(sep)` on strings. */
  function Join(parts: seq<string>, sep: string): string
  {
    if |parts| == 0 then ""
    else if |parts| == 1 then parts[0]
    else parts[0] + sep + Join(parts[1..], sep)
  }

  /**
   * Splits `s` at every occurrence of `sep`, scanning left to right: the
   * partner of Join, used to read the ids back out of a warning.
   */
  function Split(s: string, sep: string): (parts: seq<string>)
    requires |sep| > 0
    ensures |parts| > 0
    decreases |s|
  {
    if |s| == 0 then [""]
    else if sep <= s then [""] + Split(s[|sep|..], sep)
    else
      var rest := Split(s[1..], sep);
      [[s[0]] + rest[0]] + rest[1..]
  }

  /** A piece that does not contain the separator's first character splits to itself. */
  lemma {:induction false} SplitWithoutSeparator(x: string, sep: string)
    requires |sep| > 0 && sep[0] !in x
    ensures Split(x, sep) == [x]
    decreases |x|
  {
    if |x| > 0 {
      assert !(sep <= x) by { assert x[0] != sep[0]; }
      SplitWithoutSeparator(x[1..], sep);
      assert [x[0]] + x[1..] == x;
    }
  }

  /** Splitting stops at the first separator after a piece free of its first character. */
  lemma {:induction false} SplitAfterPiece(x: string, sep: string, y: string)
    requires |sep| > 0 && sep[0] !in x
    ensures Split(x + sep + y, sep) == [x] + Split(y, sep)
    decreases |x|
  {
    var s := x + sep + y;
    if |x| == 0 {
      assert s == sep + y;
      assert sep <= s;
      assert s[|sep|..] == y;
    } else {
      assert s[0] == x[0] != sep[0];
      assert !(sep <= s);
      assert s[1..] == x[1..] + sep + y;
      SplitAfterPiece(x[1..], sep, y);
      assert [x[0]] + x[1..] == x;
    }
  }

  /**
   * Join and Split are inverse on a non-empty list whose pieces do not contain
   * the separator's first character.
   */
  lemma {:induction false} SplitJoin(parts: seq<string>, sep: string)
    requires |sep| > 0 && |parts| > 0
    requires forall i :: 0 <= i < |parts| ==> sep[0] !in parts[i]
    ensures Split(Join(parts, sep), sep) == parts
    decreases |parts|
  {
    if |parts| == 1 {
      SplitWithoutSeparator(parts[0], sep);
    } else {
      SplitAfterPiece(parts[0], sep, Join(parts[1..], sep));
      SplitJoin(parts[1..], sep);
      assert [parts[0]] + parts[1..] == parts;
    }
  }
}
