/** `DirectoryItem`: a directory given by a raw path that may contain path
    variable names, resolved by substituting each variable's selected value. */
module DirectoryItems {
  import opened Wrappers
  import opened Text
  import opened PathVariables

  /** A file-system entry as listed by the platform (`FileItem`): its name,
      full name, last write time (as an integer) and whether it is a
      directory. */
  datatype FileItem = FileItem(name: string, fullName: string, lastModified: int, isDirectory: bool)

  /** `id` distinguishes directory objects with equal paths. */
  datatype DirectoryItem = DirectoryItem(id: nat, rawPath: Option<string>)

  /** Why the getter of `Path` throws: a variable without a selected value
      (a null dereference), or a variable whose name is null or empty
      (rejected by `string.Replace`). */
  datatype PathError = NoSelectedValue(variable: nat) | NullName(variable: nat) | EmptyName(variable: nat)

  /** The substitution `Replace(name, selected value)` one variable makes,
      or the error it throws. A null selected text counts as empty. */
  function Substitute(path: string, v: PathVariable, index: nat): (r: Result<string, PathError>)
    ensures r.Failure? <==> SelectedValue(v).None? || v.name.None? || v.name == Some([])
    ensures r.Success? ==> r.value == Replace(path, v.name.value, SelectedValue(v).value.value.GetOr([]))
  {
    match SelectedValue(v)
    case None => Failure(NoSelectedValue(index))
    case Some(selected) =>
      match v.name
      case None => Failure(NullName(index))
      case Some(name) =>
        if |name| == 0 then Failure(EmptyName(index))
        else Success(Replace(path, name, selected.value.GetOr([])))
  }

  /** The variable is usable for substitution. */
  predicate Usable(v: PathVariable) {
    SelectedValue(v).Some? && v.name.Some? && |v.name.value| > 0
  }

  /** Left fold of `Substitute` over the variables in list order; `first` is
      the position of `vars[0]` in the full list. */
  function SubstituteAll(path: string, vars: seq<PathVariable>, first: nat): (r: Result<string, PathError>)
    ensures r.Failure? <==> exists k :: 0 <= k < |vars| && !Usable(vars[k])
    decreases |vars|
  {
    if |vars| == 0 then Success(path)
    else
      match Substitute(path, vars[0], first)
      case Failure(e) => Failure(e)
      case Success(p) =>
        var r := SubstituteAll(p, vars[1..], first + 1);
        assert forall k :: 0 < k < |vars| ==> vars[k] == vars[1..][k - 1];
        r
  }

  /** The getter of `Path`. `variables` is `None` when there is no
      configuration instance or variable list. */
  function ResolvePath(rawPath: Option<string>, variables: Option<seq<PathVariable>>): (r: Result<Option<string>, PathError>)
    ensures rawPath.None? || rawPath == Some([]) || variables.None? ==> r == Success(rawPath)
  {
    match rawPath
    case None => Success(None)
    case Some(raw) =>
      if |raw| == 0 || variables.None? then Success(rawPath)
      else
        match SubstituteAll(raw, variables.value, 0)
        case Failure(e) => Failure(e)
        case Success(p) => Success(Some(p))
  }

  /** `Path` of a directory item. */
  function Path(d: DirectoryItem, variables: Option<seq<PathVariable>>): Result<Option<string>, PathError> {
    ResolvePath(d.rawPath, variables)
  }

  /** Substituting a list of variables is substituting a prefix, then the rest. */
  lemma {:induction false} SubstituteAllAppend(path: string, a: seq<PathVariable>, b: seq<PathVariable>, first: nat)
    ensures SubstituteAll(path, a + b, first) ==
              match SubstituteAll(path, a, first)
              case Failure(e) => Failure(e)
              case Success(p) => SubstituteAll(p, b, first + |a|)
    decreases |a|
  {
    if |a| == 0 {
      assert a + b == b;
    } else {
      assert (a + b)[0] == a[0];
      assert (a + b)[1..] == a[1..] + b;
      match Substitute(path, a[0], first)
      case Failure(e) =>
      case Success(p) =>
        SubstituteAllAppend(p, a[1..], b, first + 1);
    }
  }

  /** A usable variable whose name does not occur in the path leaves it
      unchanged, as does one whose selected text is its own name. */
  lemma SubstituteNoOp(path: string, v: PathVariable, index: nat)
    requires Usable(v)
    requires !Contains(path, v.name.value) || SelectedValue(v).value.value == v.name
    ensures Substitute(path, v, index) == Success(path)
  {
    if !Contains(path, v.name.value) {
      ReplaceAbsent(path, v.name.value, SelectedValue(v).value.value.GetOr([]));
    } else {
      ReplaceByItself(path, v.name.value);
    }
  }

  /** Assigning `Path` stores the unresolved text as `RawPath`. */
  function SetPath(d: DirectoryItem, path: Option<string>): (r: DirectoryItem)
    ensures r.rawPath == path && r.id == d.id
    ensures path.None? || path == Some([]) ==> forall vars :: Path(r, vars) == Success(path)
  {
    d.(rawPath := path)
  }

  /** `GetFileInfos`: the files of the directory at `path`, or none when it
      does not exist; a null path names no directory. The existence test and
      the listing are platform calls. */
  function GetFileInfos(path: Option<string>, directoryExists: string -> bool,
                        listFiles: string -> seq<FileItem>): (r: seq<FileItem>)
    ensures path.None? || !directoryExists(path.value) ==> r == []
    ensures path.Some? && directoryExists(path.value) ==> r == listFiles(path.value)
  {
    if path.Some? && directoryExists(path.value) then listFiles(path.value) else []
  }
}
