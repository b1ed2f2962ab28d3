/** `create_embeds_from_fields` of app/utils.py: the fields of a listing are
    cut into chunks and each chunk becomes one page, a copy of a styled
    template embed. */
module Embeds {
  import opened Seqs

  /** One embed field, as `add_field(name=, value=, inline=)` receives it. */
  datatype Field = Field(name: string, value: string, inline: bool)

  /** The part of a Discord embed the listing pages touch: its title and
      description are shared by every page, its fields differ. */
  class Embed {
    var title: string
    var description: string
    var fields: seq<Field>

    constructor (title: string, description: string)
      ensures this.title == title && this.description == description && fields == []
    {
      this.title := title;
      this.description := description;
      fields := [];
    }

    method ClearFields()
      modifies this
      ensures fields == [] && title == old(title) && description == old(description)
    {
      fields := [];
    }

    method AddField(f: Field)
      modifies this
      ensures fields == old(fields) + [f] && title == old(title) && description == old(description)
    {
      fields := fields + [f];
    }

    /** A new embed with the same contents. */
    method Copy() returns (e: Embed)
      ensures fresh(e)
      ensures e.title == title && e.description == description && e.fields == fields
    {
      e := new Embed(title, description);
      e.fields := fields;
    }
  }

  /** `disnake.utils.as_chunks(s, n)`: consecutive pieces of `n` items, the last
      one possibly shorter, and no piece at all for an empty list. */
  function Chunks<T>(s: seq<T>, n: nat): seq<seq<T>>
    requires n > 0
    decreases |s|
  {
    if s == [] then [] else if |s| <= n then [s] else [s[..n]] + Chunks(s[n..], n)
  }

  /** The chunks put back together are the list they came from. */
  lemma {:induction false} ChunksFlatten<T>(s: seq<T>, n: nat)
    requires n > 0
    ensures Flatten(Chunks(s, n)) == s
    decreases |s|
  {
    if s != [] {
      if |s| <= n {
        assert Flatten([s]) == s + Flatten([s][1..]);
        assert [s][1..] == [];
        assert s + [] == s;
      } else {
        ChunksFlatten(s[n..], n);
        FlattenCons(s[..n], Chunks(s[n..], n));
        assert s[..n] + s[n..] == s;
      }
    }
  }

  /** Every chunk holds between one and `n` items and all but the last
      exactly `n`; so the number of chunks is the length divided by `n`,
      rounded up. */
  lemma {:induction false} ChunksSizes<T>(s: seq<T>, n: nat)
    requires n > 0
    ensures var r := Chunks(s, n);
      && (forall k :: 0 <= k < |r| ==> 0 < |r[k]| <= n)
      && (forall k :: 0 <= k < |r| - 1 ==> |r[k]| == n)
      && (s != [] ==> (|r| - 1) * n < |s| <= |r| * n)
    decreases |s|
  {
    var r := Chunks(s, n);
    if |s| > n {
      var rest := Chunks(s[n..], n);
      ChunksSizes(s[n..], n);
      assert r == [s[..n]] + rest;
      assert |r| * n == |rest| * n + n;
      assert (|rest| - 1) * n == |rest| * n - n;
      forall k | 0 <= k < |r| ensures 0 < |r[k]| <= n {
        if k > 0 {
          assert r[k] == rest[k - 1];
        }
      }
      forall k | 0 <= k < |r| - 1 ensures |r[k]| == n {
        if k > 0 {
          assert r[k] == rest[k - 1];
        }
      }
    }
  }

  lemma ChunksEmpty<T>(s: seq<T>, n: nat)
    requires n > 0
    ensures Chunks(s, n) == [] <==> s == []
  {
  }

  /** How the function ended: the `assert max_size <= 25` failed, `as_chunks`
      raised `ValueError` for a size below one, there were no fields (the
      function returns `None`), or the list of pages. */
  datatype Outcome = SizeTooLarge | SizeNotPositive | NoEmbeds | Pages(embeds: seq<Embed>)

  /** `create_embeds_from_fields(embed, fields, max_size)`, where `template` is
      the styled embed `getattr(embed, emb_style)` returns. The template's own
      fields are cleared; page `k` is a new copy of it holding chunk `k` of the
      fields, and no two pages are the same object. */
  method CreateEmbedsFromFields(template: Embed, fields: seq<Field>, maxSize: int) returns (r: Outcome)
    modifies template
    ensures maxSize > 25 ==> r == SizeTooLarge && unchanged(template)
    ensures maxSize <= 0 ==> r == SizeNotPositive && unchanged(template)
    ensures 0 < maxSize <= 25 ==>
      && template.fields == []
      && template.title == old(template.title) && template.description == old(template.description)
    ensures 0 < maxSize <= 25 ==> (r == NoEmbeds <==> fields == []) && (r.Pages? <==> fields != [])
    ensures 0 < maxSize <= 25 && r.Pages? ==>
      var chunks := Chunks(fields, maxSize);
      && |r.embeds| == |chunks|
      && (forall k :: 0 <= k < |chunks| ==> fresh(r.embeds[k]))
      && (forall k :: 0 <= k < |chunks| ==>
            r.embeds[k].fields == chunks[k]
            && r.embeds[k].title == template.title && r.embeds[k].description == template.description)
      && (forall j, k :: 0 <= j < k < |chunks| ==> r.embeds[j] != r.embeds[k])
  {
    if maxSize > 25 {
      return SizeTooLarge;
    }
    if maxSize <= 0 {
      return SizeNotPositive;
    }
    var embeds: seq<Embed> := [];
    var chunks := Chunks(fields, maxSize);
    template.ClearFields();
    var k := 0;
    while k < |chunks|
      invariant 0 <= k <= |chunks| && |embeds| == k
      invariant template.fields == [] && template.title == old(template.title)
      invariant template.description == old(template.description)
      invariant forall i :: 0 <= i < k ==> fresh(embeds[i])
      invariant forall i :: 0 <= i < k ==>
        embeds[i].fields == chunks[i]
        && embeds[i].title == template.title && embeds[i].description == template.description
      invariant forall i, j :: 0 <= i < j < k ==> embeds[i] != embeds[j]
    {
      var page := template.Copy();
      var chunk := chunks[k];
      var j := 0;
      while j < |chunk|
        invariant 0 <= j <= |chunk|
        invariant page.fields == chunk[..j]
        invariant page.title == template.title && page.description == template.description
        invariant template.fields == [] && template.title == old(template.title)
        invariant template.description == old(template.description)
        invariant forall i :: 0 <= i < k ==>
          embeds[i].fields == chunks[i]
          && embeds[i].title == template.title && embeds[i].description == template.description
      {
        page.AddField(chunk[j]);
        assert chunk[..j + 1] == chunk[..j] + [chunk[j]];
        j := j + 1;
      }
      assert chunk[..j] == chunk;
      embeds := embeds + [page];
      k := k + 1;
    }
    ChunksEmpty(fields, maxSize);
    if embeds == [] {
      return NoEmbeds;
    }
    return Pages(embeds);
  }
}
