/**
 * Where the enrichment scripts write their result: the path given with
 * `--saida`, or else a file beside the input named after the input's stem
 * (`inp.with_name(inp.stem + suffix)`).
 */
module OutputPaths {
  import opened Wrappers

  /** A path as its directory part and its final component. */
  datatype FilePath = FilePath(parent: string, name: string)

  /** Where the result goes: the path given on the command line, or one derived from the input. */
  datatype Target = Given(text: string) | Derived(path: FilePath)

  const CepSuffix: string := "_com_CEPs.csv"
  const AddressSuffix: string := "_com_enderecos.csv"

  /** `name.rfind('.')`: the index of the last `.`, or -1. */
  function LastDot(name: string): (k: int)
    ensures -1 <= k < |name|
    ensures k >= 0 ==> name[k] == '.'
    ensures forall j :: k < j < |name| ==> name[j] != '.'
  {
    if name == [] then -1
    else if name[|name| - 1] == '.' then |name| - 1
    else LastDot(name[..|name| - 1])
  }

  /** A final dot that starts a suffix: neither the first character nor the last. */
  predicate HasSuffix(name: string)
  {
    0 < LastDot(name) < |name| - 1
  }

  /** `PurePath.stem`: the name without its suffix. */
  function Stem(name: string): string
  {
    if HasSuffix(name) then name[..LastDot(name)] else name
  }

  /** `PurePath.suffix`: from the last dot on, or `""`. */
  function Suffix(name: string): string
  {
    if HasSuffix(name) then name[LastDot(name)..] else ""
  }

  /**
   * `inp.with_name(inp.stem + tail)`; `with_name` raises `ValueError` on a
   * path whose name is empty, shown as `None`.
   */
  function DefaultOutput(inp: FilePath, tail: string): Option<FilePath>
  {
    if inp.name == "" then None else Some(FilePath(inp.parent, Stem(inp.name) + tail))
  }

  /** `Path(args.saida) if args.saida else inp.with_name(inp.stem + tail)`; an empty `--saida` counts as absent. */
  function Output(saida: Option<string>, inp: FilePath, tail: string): Option<Target>
  {
    if saida.Some? && saida.value != "" then Some(Given(saida.value))
    else
      match DefaultOutput(inp, tail)
      case Some(p) => Some(Derived(p))
      case None => None
  }

  // ---------------------------------------------------------------------------
  // Lemmas

  /** The stem and the suffix split the name: `stem + suffix == name`. */
  lemma StemSuffix(name: string)
    ensures Stem(name) + Suffix(name) == name
    ensures Suffix(name) == "" || (Suffix(name)[0] == '.' && '.' !in Suffix(name)[1..])
  {
    if HasSuffix(name) {
      var k := LastDot(name);
      assert name[..k] + name[k..] == name;
      assert forall j :: 0 <= j < |name[k..][1..]| ==> name[k..][1..][j] == name[k + 1 + j];
    }
  }

  /** The stem keeps a leading dot and a trailing dot: `.env` and `dados.` have no suffix. */
  lemma DotEdges(name: string)
    requires |name| > 0
    requires LastDot(name) == 0 || LastDot(name) == |name| - 1
    ensures Stem(name) == name && Suffix(name) == ""
  {
  }

  /**
   * The default file sits beside the input, is named after the input's stem,
   * and is never the input itself, so the input is not overwritten.
   */
  lemma DefaultBesideInput(inp: FilePath, tail: string)
    requires inp.name != "" && |tail| > 0 && tail[0] != '.'
    ensures DefaultOutput(inp, tail).Some?
    ensures DefaultOutput(inp, tail).value.parent == inp.parent
    ensures DefaultOutput(inp, tail).value.name == Stem(inp.name) + tail
    ensures DefaultOutput(inp, tail).value != inp
  {
    StemSuffix(inp.name);
    var stem, suffix := Stem(inp.name), Suffix(inp.name);
    if suffix == "" {
      assert |stem + tail| > |inp.name|;
    } else {
      assert (stem + tail)[|stem|] == tail[0];
      assert (stem + suffix)[|stem|] == suffix[0];
    }
  }

  /** The two scripts' suffixes qualify, and a run of each on the same input writes different files. */
  lemma ScriptOutputsDiffer(inp: FilePath)
    requires inp.name != ""
    ensures DefaultOutput(inp, CepSuffix).value != inp
    ensures DefaultOutput(inp, AddressSuffix).value != inp
    ensures DefaultOutput(inp, CepSuffix) != DefaultOutput(inp, AddressSuffix)
  {
    DefaultBesideInput(inp, CepSuffix);
    DefaultBesideInput(inp, AddressSuffix);
    var stem := Stem(inp.name);
    assert (stem + CepSuffix)[|stem| + 5] == 'C';
    assert (stem + AddressSuffix)[|stem| + 5] == 'e';
  }

  /** `dados.csv` gives `dados_com_CEPs.csv` in the same directory. */
  lemma CsvExample(dir: string)
    ensures Output(None, FilePath(dir, "dados.csv"), CepSuffix) == Some(Derived(FilePath(dir, "dados_com_CEPs.csv")))
  {
    var name := "dados.csv";
    assert name[..8] == "dados.cs";
    assert "dados.cs"[..7] == "dados.c";
    assert "dados.c"[..6] == "dados.";
    assert LastDot("dados.") == 5;
    assert LastDot(name) == 5;
    assert Stem(name) == name[..5] == "dados";
    assert "dados" + CepSuffix == "dados_com_CEPs.csv";
  }

  /** An explicit non-empty `--saida` wins, whatever the input. */
  lemma GivenWins(saida: string, inp: FilePath, tail: string)
    requires saida != ""
    ensures Output(Some(saida), inp, tail) == Some(Given(saida))
  {
  }
}
