/**
 * The `patch_file` tool: read a file, apply a list of (search, replace)
 * pairs one after the other, each as a global literal replacement over the
 * text left by the previous ones, and write the result back. A search text
 * that does not occur is silently skipped.
 */
module Patching {
  import opened PyText

  /** One (search_text, replace_text) pair. */
  datatype Patch = Patch(search: string, replace: string)

  /** The content after one patch: `content.replace(search, replace)`. */
  function ApplyOne(content: string, p: Patch): string {
    ReplaceAll(content, p.search, p.replace)
  }

  /** The content after the patches, applied first to last. */
  function ApplyPatches(content: string, patches: seq<Patch>): string
    decreases |patches|
  {
    if |patches| == 0 then content
    else ApplyOne(ApplyPatches(content, patches[..|patches| - 1]), patches[|patches| - 1])
  }

  /**
   * Patches run strictly in list order: the patches after a prefix act on
   * the content the prefix produced.
   */
  lemma {:induction false} ApplyPatchesAppend(content: string, first: seq<Patch>, later: seq<Patch>)
    ensures ApplyPatches(content, first + later) == ApplyPatches(ApplyPatches(content, first), later)
    decreases |later|
  {
    if |later| == 0 {
      assert first + later == first;
    } else {
      var all := first + later;
      ApplyPatchesAppend(content, first, later[..|later| - 1]);
      assert all[..|all| - 1] == first + later[..|later| - 1];
      assert all[|all| - 1] == later[|later| - 1];
    }
  }

  /** The first patch acts on the original content, the rest on its result. */
  lemma ApplyPatchesCons(content: string, p: Patch, rest: seq<Patch>)
    ensures ApplyPatches(content, [p] + rest) == ApplyPatches(ApplyOne(content, p), rest)
  {
    ApplyPatchesAppend(content, [p], rest);
    assert [p][..0] == [];
  }

  /**
   * A patch whose search text does not occur in the content it meets is a
   * no-op, and the remaining patches still run.
   */
  lemma UnmatchedPatchSkipped(content: string, patches: seq<Patch>, k: nat)
    requires k < |patches|
    requires !Occurs(patches[k].search, ApplyPatches(content, patches[..k]))
    ensures ApplyPatches(content, patches)
         == ApplyPatches(ApplyPatches(content, patches[..k]), patches[k + 1..])
  {
    var before := ApplyPatches(content, patches[..k]);
    ReplaceAllNoMatch(before, patches[k].search, patches[k].replace);
    assert patches[..k + 1][..k] == patches[..k];
    assert ApplyPatches(content, patches[..k + 1]) == before;
    ApplyPatchesAppend(content, patches[..k + 1], patches[k + 1..]);
    assert patches[..k + 1] + patches[k + 1..] == patches;
  }

  /** Patches whose search and replace texts agree leave the content as it was. */
  lemma {:induction false} IdentityPatches(content: string, patches: seq<Patch>)
    requires forall i :: 0 <= i < |patches| ==> patches[i].search == patches[i].replace
    ensures ApplyPatches(content, patches) == content
    decreases |patches|
  {
    if |patches| > 0 {
      var init := patches[..|patches| - 1];
      IdentityPatches(content, init);
      var last := patches[|patches| - 1];
      ReplaceAllSelf(content, last.search);
    }
  }

  /**
   * A later search can match text that an earlier replacement introduced:
   * `a -> b` then `b -> c` turns "a" into "c", while the reverse order
   * leaves "b".
   */
  lemma OrderMatters()
    ensures ApplyPatches("a", [Patch("a", "b"), Patch("b", "c")]) == "c"
    ensures ApplyPatches("a", [Patch("b", "c"), Patch("a", "b")]) == "b"
  {
  }

  /** Every occurrence is replaced, not just the first. */
  lemma ReplacesEveryOccurrence()
    ensures ApplyPatches("xax", [Patch("x", "yy")]) == "yyayy"
  {
    ApplyPatchesCons("xax", Patch("x", "yy"), []);
    assert "xax"[1..] == "ax";
    assert "ax"[1..] == "x";
    assert "x"[1..] == [];
    assert "ax"[0] != "x"[0];
  }

  /**
   * A file on disk, seen through its text content: `content` is the text
   * as Python's text mode reads it, after "\r\n" and "\r" have become
   * "\n", not the file's bytes.
   */
  class TextFile {
    var content: string

    constructor (initial: string)
      ensures content == initial
    {
      content := initial;
    }

    /**
     * `patch_file`: read the content, apply each patch in order to the
     * running text, write the result back.
     */
    method PatchFile(patches: seq<Patch>)
      modifies this
      ensures content == ApplyPatches(old(content), patches)
    {
      var text := content;
      var i := 0;
      while i < |patches|
        invariant 0 <= i <= |patches|
        invariant text == ApplyPatches(old(content), patches[..i])
      {
        var search, replace := patches[i].search, patches[i].replace;
        text := ReplaceAll(text, search, replace);
        assert patches[..i + 1][..i] == patches[..i];
        i := i + 1;
      }
      assert patches[..i] == patches;
      content := text;
    }
  }
}
