/**
 * The static book catalog and the pure rules over it: lookup by id, the
 * genre options of the filter selector, and the search/filter predicate of
 * the catalog page.
 */
module Catalog {
  import opened Wrappers
  import opened Strings

  /** One catalog record; the catalog is never changed at run time. */
  datatype Book = Book(
    id: int,
    title: string,
    author: string,
    year: int,
    genre: string,
    isbn: string,
    description: string,
    avail: string,
    cover: string)

  const Placeholder := "recursos/img/portada-placeholder.png"

  /** The BOOKS constant: the five sample records, in catalog order. */
  const Books: seq<Book> := [
    Book(1, "Don Quijote de la Mancha", "Miguel de Cervantes", 1605, "Novela clásica", "ISBN-0001-Q",
      "Clásico de la literatura española: aventuras, humor y reflexión sobre la locura y la lectura.",
      "Disponible", Placeholder),
    Book(2, "1984", "George Orwell", 1949, "Distopía", "ISBN-0002-1984",
      "Una sociedad vigilada y controlada por el Gran Hermano. Reflexión sobre poder y libertad.",
      "Prestado", Placeholder),
    Book(3, "Cien años de soledad", "Gabriel García Márquez", 1967, "Realismo mágico", "ISBN-0003-CIEN",
      "La saga de la familia Buendía en Macondo: historia, mito y realismo mágico.",
      "Disponible", Placeholder),
    Book(4, "El Principito", "Antoine de Saint-Exupéry", 1943, "Fábula", "ISBN-0004-PRIN",
      "Un relato poético y filosófico sobre la mirada de la infancia, la amistad y la responsabilidad.",
      "Disponible", Placeholder),
    Book(5, "Rayuela", "Julio Cortázar", 1963, "Novela experimental", "ISBN-0005-RAY",
      "Una obra innovadora que explora la narrativa en juegos y saltos entre capítulos.",
      "Prestado", Placeholder)
  ]

  /** Identifiers are unique within a catalog. */
  predicate UniqueIds(books: seq<Book>) {
    forall i, j :: 0 <= i < j < |books| ==> books[i].id != books[j].id
  }

  lemma BooksUniqueIds()
    ensures UniqueIds(Books)
  {
  }

  // ---------------------------------------------------------------------
  // Lookup by id (BOOKS.find)
  // ---------------------------------------------------------------------

  /**
   * The first book with the given id, or None when no book has it: the
   * not-found outcome of the detail page and the modal.
   */
  function Find(books: seq<Book>, id: int): (r: Option<Book>)
    ensures r.Some? ==> r.value in books && r.value.id == id
    ensures r.None? <==> forall b :: b in books ==> b.id != id
  {
    if books == [] then None
    else if books[0].id == id then Some(books[0])
    else Find(books[1..], id)
  }

  /** The book Find returns is the first one carrying the id. */
  lemma {:induction false} FindFirst(books: seq<Book>, id: int)
    ensures Find(books, id).Some? ==> FirstWithId(books, id, Find(books, id).value)
  {
    if books != [] {
      if books[0].id == id {
        assert NoIdBefore(books, id, 0);
      } else {
        var r := Find(books[1..], id);
        FindFirst(books[1..], id);
        if r.Some? {
          var k :| 0 <= k < |books[1..]| && books[1..][k] == r.value && NoIdBefore(books[1..], id, k);
          assert books[k + 1] == r.value;
          assert NoIdBefore(books, id, k + 1) by {
            forall j | 0 <= j < k + 1 ensures books[j].id != id {
              if j > 0 { assert books[j] == books[1..][j - 1]; }
            }
          }
        }
      }
    }
  }

  /** b stands in books at a position before which no book has the given id. */
  predicate FirstWithId(books: seq<Book>, id: int, b: Book) {
    exists k :: 0 <= k < |books| && books[k] == b && NoIdBefore(books, id, k)
  }

  /** No book before position k has the given id. */
  predicate NoIdBefore(books: seq<Book>, id: int, k: nat)
    requires k <= |books|
  {
    forall j :: 0 <= j < k ==> books[j].id != id
  }

  /** In a catalog with unique ids, looking up a book's id finds that very book. */
  lemma {:induction false} FindOwnId(books: seq<Book>, k: nat)
    requires UniqueIds(books) && k < |books|
    ensures Find(books, books[k].id) == Some(books[k])
  {
    if k > 0 {
      assert UniqueIds(books[1..]) by {
        forall i, j | 0 <= i < j < |books[1..]| ensures books[1..][i].id != books[1..][j].id {
          assert books[1..][i] == books[i + 1] && books[1..][j] == books[j + 1];
        }
      }
      assert books[0].id != books[k].id;
      FindOwnId(books[1..], k - 1);
    }
  }

  /** Detail for id 999 yields not-found; id 2 resolves to "1984". */
  lemma FindExamples()
    ensures Find(Books, 999).None?
    ensures Find(Books, 2) == Some(Books[1]) && Books[1].title == "1984"
  {
    BooksUniqueIds();
    FindOwnId(Books, 1);
    forall b | b in Books ensures b.id != 999 {
      var i :| 0 <= i < |Books| && Books[i] == b;
      assert b.id <= 5;
    }
  }

  // ---------------------------------------------------------------------
  // Genre options: Array.from(new Set(BOOKS.map(b => b.genre)))
  // ---------------------------------------------------------------------

  predicate NoDuplicates<T(==)>(s: seq<T>) {
    forall i, j :: 0 <= i < j < |s| ==> s[i] != s[j]
  }

  /** The position of the first occurrence of x in s. */
  function FirstIndex<T(==)>(s: seq<T>, x: T): (k: nat)
    requires x in s
    ensures k < |s| && s[k] == x
    ensures forall j :: 0 <= j < k ==> s[j] != x
  {
    if s[0] == x then 0 else 1 + FirstIndex(s[1..], x)
  }

  /** The first occurrence of x is the same in s and in any prefix of s that holds x. */
  lemma FirstIndexPrefix<T>(s: seq<T>, n: nat, x: T)
    requires n <= |s| && x in s[..n]
    ensures FirstIndex(s[..n], x) == FirstIndex(s, x)
  {
    var a, b := FirstIndex(s[..n], x), FirstIndex(s, x);
    assert s[..n][a] == s[a] == x;
    assert b <= a;
    assert s[..n][b] == s[b] == x;
  }

  /**
   * A Set's iteration order: each element once, in the order of its first
   * appearance in s.
   */
  function Distinct<T(==,!new)>(s: seq<T>): (r: seq<T>)
    ensures NoDuplicates(r)
    ensures forall x :: x in r <==> x in s
    ensures forall i, j :: 0 <= i < j < |r| ==> FirstIndex(s, r[i]) < FirstIndex(s, r[j])
  {
    if s == [] then []
    else
      var n := |s| - 1;
      var d := Distinct(s[..n]);
      assert forall x :: x in s <==> x in s[..n] || x == s[n] by {
        assert s == s[..n] + [s[n]];
      }
      assert forall x :: x in s[..n] ==> x in s;
      DistinctOrder(s, n, d);
      if s[n] in d then d else d + [s[n]]
  }

  /** The ordering step of Distinct: first positions in the prefix carry over to s. */
  lemma DistinctOrder<T>(s: seq<T>, n: nat, d: seq<T>)
    requires n < |s|
    requires forall x :: x in s[..n] ==> x in s
    requires forall x :: x in d <==> x in s[..n]
    requires forall i, j :: 0 <= i < j < |d| ==> FirstIndex(s[..n], d[i]) < FirstIndex(s[..n], d[j])
    ensures forall i, j :: 0 <= i < j < |d| ==> FirstIndex(s, d[i]) < FirstIndex(s, d[j])
    ensures s[n] !in d ==> forall i :: 0 <= i < |d| ==> FirstIndex(s, d[i]) < FirstIndex(s, s[n])
  {
    forall i | 0 <= i < |d| ensures FirstIndex(s, d[i]) == FirstIndex(s[..n], d[i]) < n {
      FirstIndexPrefix(s, n, d[i]);
    }
    if s[n] !in d {
      var f := FirstIndex(s, s[n]);
    }
  }

  function GenreColumn(books: seq<Book>): (r: seq<string>)
    ensures |r| == |books| && forall i :: 0 <= i < |books| ==> r[i] == books[i].genre
  {
    seq(|books|, i requires 0 <= i < |books| => books[i].genre)
  }

  /**
   * The options of the genre selector: each genre once, a genre exactly when
   * some book has it, in the order of the first book that has it.
   */
  function Genres(books: seq<Book>): (r: seq<string>)
    ensures NoDuplicates(r)
    ensures forall g :: g in r <==> exists b :: b in books && b.genre == g
    ensures forall g :: g in r <==> g in GenreColumn(books)
    ensures forall i, j :: 0 <= i < j < |r| ==>
      FirstIndex(GenreColumn(books), r[i]) < FirstIndex(GenreColumn(books), r[j])
  {
    var col := GenreColumn(books);
    assert forall g :: g in col <==> exists b :: b in books && b.genre == g by {
      forall g ensures g in col <==> exists b :: b in books && b.genre == g {
        if g in col {
          var i :| 0 <= i < |col| && col[i] == g;
          assert books[i] in books;
        }
        if exists b :: b in books && b.genre == g {
          var b :| b in books && b.genre == g;
          var i :| 0 <= i < |books| && books[i] == b;
          assert col[i] == g;
        }
      }
    }
    Distinct(col)
  }

  /** All five sample genres differ, so the selector lists them in catalog order. */
  lemma GenresOfBooks()
    ensures Genres(Books) == ["Novela clásica", "Distopía", "Realismo mágico", "Fábula", "Novela experimental"]
  {
    var col := GenreColumn(Books);
    assert col == ["Novela clásica", "Distopía", "Realismo mágico", "Fábula", "Novela experimental"];
    DistinctOfDistinct(col);
  }

  /** A sequence that already has no duplicates is its own Distinct. */
  lemma {:induction false} DistinctOfDistinct<T(!new)>(s: seq<T>)
    requires NoDuplicates(s)
    ensures Distinct(s) == s
  {
    if s != [] {
      var n := |s| - 1;
      DistinctOfDistinct(s[..n]);
      assert s[n] !in s[..n];
      assert s == s[..n] + [s[n]];
    }
  }

  // ---------------------------------------------------------------------
  // Search and filters (the predicate inside applyFilters)
  // ---------------------------------------------------------------------

  /**
   * The search text of a book: the title, then one space, the author, one
   * space and the genre.
   */
  function Haystack(b: Book): (r: string)
    ensures var t, a := |b.title|, |b.author|;
      && |r| == t + a + |b.genre| + 2
      && r[..t] == b.title && r[t] == ' '
      && r[t + 1..t + 1 + a] == b.author && r[t + 1 + a] == ' '
      && r[t + a + 2..] == b.genre
  {
    b.title + " " + b.author + " " + b.genre
  }

  /**
   * The search box value as the filter uses it: the value with the white
   * space at its ends removed, lower-cased. The result has no capital letter
   * and no white space at either end, and it is empty exactly when the value
   * is blank.
   */
  function NormalizeQuery(raw: string): (q: string)
    ensures var i := LeadingWhite(raw); q == Lower(raw[i..][..|Trim(raw)|])
    ensures q == [] <==> Trim(raw) == []
    ensures q == [] || (!IsWhite(q[0]) && !IsWhite(q[|q| - 1]))
    ensures forall i :: 0 <= i < |q| ==> !('A' <= q[i] <= 'Z')
  {
    var t := Trim(raw);
    LowerEnds(t);
    Lower(t)
  }

  /**
   * Whether a book passes the three filters. A kept book has the selected
   * genre and availability (when one is selected) and search text containing
   * the query (when there is one); with nothing entered every book is kept.
   */
  predicate Matches(b: Book, q: string, genre: string, avail: string): (keep: bool)
    ensures keep ==> genre == [] || b.genre == genre
    ensures keep ==> avail == [] || b.avail == avail
    ensures keep ==> Contains(Lower(Haystack(b)), q)
    ensures q == [] && genre == [] && avail == [] ==> keep
  {
    && (q == [] || Contains(Lower(Haystack(b)), q))
    && (genre == [] || b.genre == genre)
    && (avail == [] || b.avail == avail)
  }

  /** s is obtained from t by deleting elements, keeping the order. */
  predicate IsSubsequence<T(==)>(s: seq<T>, t: seq<T>)
    decreases |t|
  {
    s == [] || (t != [] && ((s[0] == t[0] && IsSubsequence(s[1..], t[1..])) || IsSubsequence(s, t[1..])))
  }

  /** How often b occurs in a sequence that starts with x. */
  lemma CountCons(x: Book, t: seq<Book>, b: Book)
    ensures multiset([x] + t)[b] == (if b == x then 1 else 0) + multiset(t)[b]
  {
    assert multiset([x] + t) == multiset{x} + multiset(t);
  }

  /** BOOKS.filter with the already normalised query q. */
  function FilterBooks(books: seq<Book>, q: string, genre: string, avail: string): (r: seq<Book>)
    ensures |r| <= |books|
    ensures IsSubsequence(r, books)
    ensures forall b :: b in r <==> b in books && Matches(b, q, genre, avail)
  {
    if books == [] then []
    else
      var rest := FilterBooks(books[1..], q, genre, avail);
      assert forall b :: b in books <==> b == books[0] || b in books[1..];
      if Matches(books[0], q, genre, avail) then [books[0]] + rest else rest
  }

  /** The filter keeps every copy of a matching book and no copy of any other. */
  lemma {:induction false} FilterCount(books: seq<Book>, q: string, genre: string, avail: string, b: Book)
    ensures multiset(FilterBooks(books, q, genre, avail))[b] == if Matches(b, q, genre, avail) then multiset(books)[b] else 0
  {
    if books != [] {
      var rest := FilterBooks(books[1..], q, genre, avail);
      FilterCount(books[1..], q, genre, avail, b);
      assert books == [books[0]] + books[1..];
      CountCons(books[0], books[1..], b);
      if Matches(books[0], q, genre, avail) {
        CountCons(books[0], rest, b);
      }
    }
  }

  /**
   * applyFilters: the books shown for the search box value and the two
   * selectors, in catalog order; a book is shown exactly when it passes the
   * filters with the trimmed, lower-cased query.
   */
  function ApplyFilters(books: seq<Book>, rawQuery: string, genre: string, avail: string): (r: seq<Book>)
    ensures IsSubsequence(r, books)
    ensures forall b :: b in r <==> b in books && Matches(b, NormalizeQuery(rawQuery), genre, avail)
  {
    FilterBooks(books, NormalizeQuery(rawQuery), genre, avail)
  }

  /** With a blank query and no selection every book is shown, in catalog order. */
  lemma {:induction false} FilterNothing(books: seq<Book>, rawQuery: string)
    requires Trim(rawQuery) == []
    ensures ApplyFilters(books, rawQuery, "", "") == books
  {
    assert NormalizeQuery(rawQuery) == [];
    FilterAllMatch(books, [], "", "");
  }

  /** When every book passes the filters, the filter returns the catalog itself. */
  lemma {:induction false} FilterAllMatch(books: seq<Book>, q: string, genre: string, avail: string)
    requires forall b :: b in books ==> Matches(b, q, genre, avail)
    ensures FilterBooks(books, q, genre, avail) == books
  {
    if books != [] {
      assert books[0] in books;
      FilterAllMatch(books[1..], q, genre, avail);
      assert books == [books[0]] + books[1..];
    }
  }

  /** Filtering twice with the same criteria changes nothing the second time. */
  lemma {:induction false} FilterIdempotent(books: seq<Book>, q: string, genre: string, avail: string)
    ensures FilterBooks(FilterBooks(books, q, genre, avail), q, genre, avail) == FilterBooks(books, q, genre, avail)
  {
    var r := FilterBooks(books, q, genre, avail);
    FilterAllMatch(r, q, genre, avail);
  }

  /** Filters applied one after another commute. */
  lemma {:induction false} FilterCommute(books: seq<Book>, q1: string, g1: string, a1: string, q2: string, g2: string, a2: string)
    ensures FilterBooks(FilterBooks(books, q1, g1, a1), q2, g2, a2)
         == FilterBooks(FilterBooks(books, q2, g2, a2), q1, g1, a1)
  {
    if books != [] {
      FilterCommute(books[1..], q1, g1, a1, q2, g2, a2);
      var b := books[0];
      var r1, r2 := FilterBooks(books[1..], q1, g1, a1), FilterBooks(books[1..], q2, g2, a2);
      if Matches(b, q1, g1, a1) {
        assert ([b] + r1)[0] == b && ([b] + r1)[1..] == r1;
      }
      if Matches(b, q2, g2, a2) {
        assert ([b] + r2)[0] == b && ([b] + r2)[1..] == r2;
      }
    }
  }

  /** Filtering works element by element, so it distributes over concatenation. */
  lemma {:induction false} FilterConcat(a: seq<Book>, b: seq<Book>, q: string, genre: string, avail: string)
    ensures FilterBooks(a + b, q, genre, avail) == FilterBooks(a, q, genre, avail) + FilterBooks(b, q, genre, avail)
  {
    if a == [] {
      assert a + b == b;
    } else {
      assert (a + b)[0] == a[0] && (a + b)[1..] == a[1..] + b;
      FilterConcat(a[1..], b, q, genre, avail);
    }
  }

  /** When no book passes the filters, nothing is shown. */
  lemma {:induction false} FilterNoneMatch(books: seq<Book>, q: string, genre: string, avail: string)
    requires forall j :: 0 <= j < |books| ==> !Matches(books[j], q, genre, avail)
    ensures FilterBooks(books, q, genre, avail) == []
  {
    if books != [] {
      assert !Matches(books[0], q, genre, avail);
      FilterNoneMatch(books[1..], q, genre, avail);
    }
  }

  /** When exactly one book passes the filters, the result is that book alone. */
  lemma {:induction false} FilterSingle(books: seq<Book>, k: nat, q: string, genre: string, avail: string)
    requires k < |books| && Matches(books[k], q, genre, avail)
    requires forall j :: 0 <= j < |books| && j != k ==> !Matches(books[j], q, genre, avail)
    ensures FilterBooks(books, q, genre, avail) == [books[k]]
  {
    var tail := books[1..];
    assert forall j :: 0 <= j < |tail| ==> tail[j] == books[j + 1];
    if k == 0 {
      FilterNoneMatch(tail, q, genre, avail);
    } else {
      assert !Matches(books[0], q, genre, avail);
      FilterSingle(tail, k - 1, q, genre, avail);
    }
  }

  /**
   * Filtering by genre "Distopía" shows exactly "1984". The genre is a
   * parameter equal to the literal so that the solver does not evaluate the
   * filter over the literal catalog eagerly; the same holds for the query
   * parameters of the lemmas below.
   */
  lemma FilterDistopia(g: string)
    requires g == "Distopía"
    ensures ApplyFilters(Books, "", g, "") == [Books[1]]
  {
    assert NormalizeQuery("") == [];
    var bs := Books;
    assert bs[0].genre == "Novela clásica" && bs[1].genre == g && bs[2].genre == "Realismo mágico";
    assert bs[3].genre == "Fábula" && bs[4].genre == "Novela experimental";
    FilterSingle(bs, 1, [], g, "");
  }

  /** A query with no white space at its ends and no capital letter is used as typed. */
  lemma NormalQuery(raw: string)
    requires raw == [] || (!IsWhite(raw[0]) && !IsWhite(raw[|raw| - 1]))
    requires forall i :: 0 <= i < |raw| ==> !('A' <= raw[i] <= 'Z')
    ensures NormalizeQuery(raw) == raw
  {
  }

  /**
   * A normalised query that occurs in a book's search text keeps that book
   * in the result of the search box alone.
   */
  lemma SearchFinds(books: seq<Book>, raw: string, k: nat, at: nat)
    requires k < |books| && raw != []
    requires NormalizeQuery(raw) == raw
    requires OccursAt(Lower(Haystack(books[k])), raw, at)
    ensures books[k] in ApplyFilters(books, raw, "", "")
  {
    assert Matches(books[k], raw, "", "");
  }

  /**
   * A query that occurs in a book's lower-cased author occurs in its
   * lower-cased search text, after the title and one space.
   */
  lemma FoundInAuthor(b: Book, q: string, i: nat)
    requires i + |q| <= |b.author| && Lower(b.author[i..i + |q|]) == q
    ensures OccursAt(Lower(Haystack(b)), q, |b.title| + 1 + i)
  {
    var h, t := Haystack(b), |b.title|;
    assert h[t + 1 + i..t + 1 + i + |q|] == b.author[i..i + |q|] by {
      assert h == b.title + " " + b.author + " " + b.genre;
      var inHay, inAuthor := h[t + 1 + i..t + 1 + i + |q|], b.author[i..i + |q|];
      forall k | 0 <= k < |q| ensures inHay[k] == inAuthor[k] {
        assert inHay[k] == h[t + 1 + i + k];
      }
    }
    LowerSlice(h, t + 1 + i, t + 1 + i + |q|);
  }

  /**
   * The search text runs from the end of the author through one space into
   * the start of the genre.
   */
  lemma AuthorGenreSpan(b: Book, i: nat, j: nat)
    requires i <= |b.author| && j <= |b.genre|
    ensures var t, a := |b.title|, |b.author|;
      Haystack(b)[t + 1 + i..t + a + 2 + j] == b.author[i..] + " " + b.genre[..j]
  {
    var h, t, a := Haystack(b), |b.title|, |b.author|;
    assert h == b.title + " " + b.author + " " + b.genre;
    var span := b.author[i..] + " " + b.genre[..j];
    assert |h[t + 1 + i..t + a + 2 + j]| == |span|;
    forall k | 0 <= k < |span| ensures h[t + 1 + i + k] == span[k] {
      if k < a - i {
        assert span[k] == b.author[i + k];
      } else if k == a - i {
        assert span[k] == ' ';
      } else {
        assert span[k] == b.genre[k - (a - i) - 1];
      }
    }
  }

  /** The lower-case, accented query "cortázar" finds "Rayuela" through its author. */
  lemma FilterCortazar(q: string)
    requires q == "cortázar"
    ensures Books[4] in ApplyFilters(Books, q, "", "")
  {
    NormalQuery(q);
    var b := Books[4];
    CortazarInAuthor(b.author, q);
    FoundInAuthor(b, q, 6);
    SearchFinds(Books, q, 4, |b.title| + 7);
  }

  /** The author "Julio Cortázar" holds the query "cortázar" once lower-cased, from position 6. */
  lemma CortazarInAuthor(author: string, q: string)
    requires author == "Julio Cortázar" && q == "cortázar"
    ensures 6 + |q| <= |author| && Lower(author[6..6 + |q|]) == q
  {
    assert author[6..14] == "Cortázar";
  }

  /**
   * The query is matched against the joined text, not field by field: the
   * query "orwell distop" finds "1984" although neither its title, its author
   * nor its genre contains it.
   */
  lemma FilterAcrossFields(q: string)
    requires q == "orwell distop"
    ensures Books[1] in ApplyFilters(Books, q, "", "")
    ensures !Contains(Lower(Books[1].title), q)
    ensures !Contains(Lower(Books[1].author), q)
    ensures !Contains(Lower(Books[1].genre), q)
  {
    OrwellDistopFinds1984(q);
    OrwellDistopInNoField(q);
  }

  /** The query "orwell distop" keeps "1984" in the result of the search box alone. */
  lemma OrwellDistopFinds1984(q: string)
    requires q == "orwell distop"
    ensures Books[1] in ApplyFilters(Books, q, "", "")
  {
    OrwellDistopIsNormal(q);
    var b := Books[1];
    assert b.author == "George Orwell" && b.genre == "Distopía" && |b.title| == 4;
    OrwellDistopSpansFields(b, q);
    SearchFinds(Books, q, 1, 12);
  }

  /** The query "orwell distop" is already normalised. */
  lemma OrwellDistopIsNormal(q: string)
    requires q == "orwell distop"
    ensures NormalizeQuery(q) == q
  {
    NormalQuery(q);
  }

  /** None of the three fields of "1984" contains "orwell distop" on its own. */
  lemma OrwellDistopInNoField(q: string)
    requires q == "orwell distop"
    ensures !Contains(Lower(Books[1].title), q)
    ensures !Contains(Lower(Books[1].author), q)
    ensures !Contains(Lower(Books[1].genre), q)
  {
    var b := Books[1];
    ContainsTooLong(Lower(b.title), q);
    ContainsTooLong(Lower(b.genre), q);
    var author := Lower(b.author);
    assert !OccursAt(author, q, 0) by { assert author[0] == 'g' != q[0]; }
  }

  /** "orwell distop" runs from the author field across the separator into the genre field. */
  lemma OrwellDistopSpansFields(b: Book, q: string)
    requires q == "orwell distop"
    requires b.author == "George Orwell" && b.genre == "Distopía"
    ensures OccursAt(Lower(Haystack(b)), q, |b.title| + 8)
  {
    var h, t := Haystack(b), |b.title|;
    assert h[t + 8..t + 21] == "Orwell Distop" by {
      AuthorGenreSpan(b, 7, 6);
      assert b.author[7..] == "Orwell" && b.genre[..6] == "Distop";
    }
    LowerOrwellDistop(h, t + 8, q);
  }

  /** Lower-casing a text holding "Orwell Distop" at i puts the query at i. */
  lemma LowerOrwellDistop(s: string, i: nat, q: string)
    requires q == "orwell distop"
    requires i + 13 <= |s| && s[i..i + 13] == "Orwell Distop"
    ensures OccursAt(Lower(s), q, i)
  {
    LowerSlice(s, i, i + 13);
    assert Lower("Orwell Distop") == q;
  }
}
