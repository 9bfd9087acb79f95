/**
 * The `list_queries` and `list_mutations` tools (`listGraphQLQueries`, `listGraphQLMutations`):
 * a header line, then one line per root field in declaration order. Rendering a single
 * field is the GraphQL client library's job, so the formatter is a parameter over an
 * opaque field type.
 */
module Listing {
  import opened GoStrings

  const QueriesTitle: string := "Queries:"
  const MutationsTitle: string := "Mutations:"

  /** The formatted fields, one per field, in declaration order. */
  function Formatted<F>(fields: seq<F>, format: F -> string): seq<string>
  {
    seq(|fields|, i requires 0 <= i < |fields| => format(fields[i]))
  }

  /** The body of a listing: each formatted field followed by a newline. */
  function Lines<F>(fields: seq<F>, format: F -> string): (r: string)
    ensures r == "" <==> fields == []
    ensures fields != [] ==> r[|r| - 1] == '\n'
  {
    if fields == [] then "" else format(fields[0]) + "\n" + Lines(fields[1..], format)
  }

  lemma {:induction false} LinesSnoc<F>(fields: seq<F>, f: F, format: F -> string)
    ensures Lines(fields + [f], format) == Lines(fields, format) + format(f) + "\n"
  {
    if fields != [] {
      assert (fields + [f])[1..] == fields[1..] + [f];
      LinesSnoc(fields[1..], f, format);
    }
  }

  /** Writes `title` and a newline, then each formatted field and a newline, into one string. */
  method ListFields<F>(title: string, fields: seq<F>, format: F -> string) returns (listing: string)
    ensures listing == title + "\n" + Lines(fields, format)
  {
    var sb := title + "\n";
    for i := 0 to |fields|
      invariant sb == title + "\n" + Lines(fields[..i], format)
    {
      LinesSnoc(fields[..i], fields[i], format);
      assert fields[..i + 1] == fields[..i] + [fields[i]];
      sb := sb + format(fields[i]) + "\n";
    }
    assert fields[..|fields|] == fields;
    listing := sb;
  }

  /** `listGraphQLQueries` over the introspected query fields. */
  method ListQueries<F>(queries: seq<F>, format: F -> string) returns (listing: string)
    ensures listing == "Queries:\n" + Lines(queries, format)
  {
    listing := ListFields(QueriesTitle, queries, format);
  }

  /** `listGraphQLMutations` over the introspected mutation fields. */
  method ListMutations<F>(mutations: seq<F>, format: F -> string) returns (listing: string)
    ensures listing == "Mutations:\n" + Lines(mutations, format)
  {
    listing := ListFields(MutationsTitle, mutations, format);
  }

  /**
   * Read back line by line, the body is exactly the formatted fields in order, followed by
   * the empty piece after the final newline, provided no formatted field spans two lines.
   */
  lemma {:induction false} LinesSplit<F>(fields: seq<F>, format: F -> string)
    requires forall i :: 0 <= i < |fields| ==> '\n' !in format(fields[i])
    ensures Split(Lines(fields, format), '\n') == Formatted(fields, format) + [""]
  {
    if fields != [] {
      var f := fields[0];
      LinesSplit(fields[1..], format);
      SplitAround(format(f), Lines(fields[1..], format), '\n');
      SplitNoSep(format(f), '\n');
      assert Formatted(fields, format) == [format(f)] + Formatted(fields[1..], format);
    }
  }

  /**
   * A whole listing reads back as its title line, then one line per field in declaration
   * order, then the empty piece after the final newline. With no fields it is the title line alone.
   */
  lemma ListingLines<F>(title: string, fields: seq<F>, format: F -> string)
    requires '\n' !in title
    requires forall i :: 0 <= i < |fields| ==> '\n' !in format(fields[i])
    ensures Split(title + "\n" + Lines(fields, format), '\n') == [title] + Formatted(fields, format) + [""]
    ensures fields == [] ==> title + "\n" + Lines(fields, format) == title + "\n"
  {
    LinesSplit(fields, format);
    SplitAround(title, Lines(fields, format), '\n');
    SplitNoSep(title, '\n');
  }

  /** Listings of two field lists agree exactly when the formatted lists agree. */
  lemma ListingDeterminesFields<F>(title: string, fields: seq<F>, fields': seq<F>, format: F -> string)
    requires '\n' !in title
    requires forall i :: 0 <= i < |fields| ==> '\n' !in format(fields[i])
    requires forall i :: 0 <= i < |fields'| ==> '\n' !in format(fields'[i])
    ensures title + "\n" + Lines(fields, format) == title + "\n" + Lines(fields', format)
        <==> Formatted(fields, format) == Formatted(fields', format)
  {
    var fa, fb := Formatted(fields, format), Formatted(fields', format);
    if title + "\n" + Lines(fields, format) == title + "\n" + Lines(fields', format) {
      ListingLines(title, fields, format);
      ListingLines(title, fields', format);
      var l := Split(title + "\n" + Lines(fields, format), '\n');
      assert fa == l[1..|l| - 1];
      assert fb == l[1..|l| - 1];
    }
    if fa == fb {
      LinesFromFormatted(fields, fields', format);
    }
  }

  /** The body depends on the fields only through their formatted lines. */
  lemma {:induction false} LinesFromFormatted<F>(fields: seq<F>, fields': seq<F>, format: F -> string)
    requires Formatted(fields, format) == Formatted(fields', format)
    ensures Lines(fields, format) == Lines(fields', format)
  {
    assert |fields| == |Formatted(fields, format)| == |fields'|;
    if fields != [] {
      assert format(fields[0]) == Formatted(fields, format)[0] == format(fields'[0]);
      assert Formatted(fields[1..], format) == Formatted(fields, format)[1..];
      assert Formatted(fields'[1..], format) == Formatted(fields', format)[1..];
      LinesFromFormatted(fields[1..], fields'[1..], format);
    }
  }
}
