/** The topic search tab (pestana_busqueda.py): accent- and case-blind
    normalisation, first-match assignment of every row to a thematic area,
    and the per-area summary. */
module Classifier {
  import opened Cells
  import Grouping

  /** The parts of the Unicode character database the normalisation relies
      on: full lower-casing, canonical decomposition and the "Mn" (nonspacing
      mark) category test. */
  datatype UnicodeTables = UnicodeTables(lower: char -> string, decompose: char -> string, isMn: char -> bool)

  /** The facts of the real tables the properties below depend on: a
      canonical decomposition is already fully decomposed, and 'ñ'
      decomposes to 'n' followed by the combining tilde, a nonspacing mark. */
  ghost predicate Coherent(u: UnicodeTables)
  {
    (forall c, d :: d in u.decompose(c) ==> u.decompose(d) == [d]) &&
    u.decompose('ñ') == ['n', '\U{0303}'] &&
    u.isMn('\U{0303}')
  }

  /** The Spanish subset of the tables: ASCII and accented capitals, the
      five acute vowels, 'ñ' and 'ü'. */
  const Espanol: UnicodeTables := UnicodeTables(EspanolLower, EspanolDecompose, EspanolIsMn)

  function EspanolLower(c: char): string
  {
    if 'A' <= c <= 'Z' || c in {'Á', 'É', 'Í', 'Ó', 'Ú', 'Ñ', 'Ü'} then [(c as int + 32) as char] else [c]
  }

  function EspanolDecompose(c: char): string
  {
    if c == 'á' then ['a', '\U{0301}']
    else if c == 'é' then ['e', '\U{0301}']
    else if c == 'í' then ['i', '\U{0301}']
    else if c == 'ó' then ['o', '\U{0301}']
    else if c == 'ú' then ['u', '\U{0301}']
    else if c == 'ñ' then ['n', '\U{0303}']
    else if c == 'ü' then ['u', '\U{0308}']
    else [c]
  }

  predicate EspanolIsMn(c: char)
  {
    c == '\U{0301}' || c == '\U{0303}' || c == '\U{0308}'
  }

  lemma EspanolCoherent()
    ensures Coherent(Espanol)
  {
    forall c, d | d in Espanol.decompose(c) ensures Espanol.decompose(d) == [d] {
      if c in {'á', 'é', 'í', 'ó', 'ú', 'ñ', 'ü'} {
        assert d in {'a', 'e', 'i', 'o', 'u', 'n', '\U{0301}', '\U{0303}', '\U{0308}'};
      } else {
        assert Espanol.decompose(c) == [c];
      }
    }
  }

  /** Maps every character to a string and concatenates the results. */
  function FlatMap(f: char -> string, s: string): string
  {
    if s == [] then [] else f(s[0]) + FlatMap(f, s[1..])
  }

  lemma {:induction false} FlatMapMembers(f: char -> string, s: string, d: char)
    requires d in FlatMap(f, s)
    ensures exists c :: c in s && d in f(c)
  {
    if d in f(s[0]) {
      assert s[0] in s;
    } else {
      FlatMapMembers(f, s[1..], d);
      var c :| c in s[1..] && d in f(c);
      assert c in s;
    }
  }

  /** Drops every nonspacing mark, keeping the other characters in order. */
  function DropMarks(u: UnicodeTables, s: string): string
  {
    if s == [] then []
    else (if u.isMn(s[0]) then [] else [s[0]]) + DropMarks(u, s[1..])
  }

  /** What is kept is exactly the characters of the input that are not
      marks. */
  lemma {:induction false} DropMarksMembers(u: UnicodeTables, s: string)
    ensures forall c :: c in DropMarks(u, s) <==> c in s && !u.isMn(c)
  {
    if s != [] {
      DropMarksMembers(u, s[1..]);
    }
  }

  /** Every character that is not a mark keeps its number of occurrences. */
  lemma {:induction false} DropMarksExact(u: UnicodeTables, s: string, c: char)
    ensures multiset(DropMarks(u, s))[c] == if u.isMn(c) then 0 else multiset(s)[c]
  {
    if s != [] {
      var head := if u.isMn(s[0]) then [] else [s[0]];
      DropMarksExact(u, s[1..], c);
      assert DropMarks(u, s) == head + DropMarks(u, s[1..]);
      assert multiset(DropMarks(u, s))[c] == multiset(head)[c] + multiset(DropMarks(u, s[1..]))[c];
      assert s == [s[0]] + s[1..];
      assert multiset(s)[c] == multiset([s[0]])[c] + multiset(s[1..])[c];
    }
  }

  /** Filtering works character by character, so the order of what is kept
      is the order of the input. */
  lemma {:induction false} DropMarksAppend(u: UnicodeTables, a: string, b: string)
    ensures DropMarks(u, a + b) == DropMarks(u, a) + DropMarks(u, b)
  {
    if a == [] {
      assert a + b == b;
    } else {
      assert (a + b)[1..] == a[1..] + b;
      DropMarksAppend(u, a[1..], b);
    }
  }

  /** normalizar_texto: "" for a missing or empty text; otherwise the
      lower-cased text, canonically decomposed, without nonspacing marks. */
  function NormalizarTexto(u: UnicodeTables, texto: Option<string>): (r: string)
    ensures texto.None? || texto.value == [] ==> r == []
    ensures texto.Some? && texto.value != [] ==>
              r == DropMarks(u, FlatMap(u.decompose, FlatMap(u.lower, texto.value)))
    ensures texto.Some? && texto.value != [] ==>
              forall c :: c in r <==> c in FlatMap(u.decompose, FlatMap(u.lower, texto.value)) && !u.isMn(c)
    ensures forall c :: c in r ==> !u.isMn(c)
  {
    if texto.None? || texto.value == [] then []
    else
      var d := FlatMap(u.decompose, FlatMap(u.lower, texto.value));
      DropMarksMembers(u, d);
      DropMarks(u, d)
  }

  /** With coherent tables a normalised text never holds 'ñ': it is always
      decomposed into 'n' and a mark that is then dropped. */
  lemma NoEnie(u: UnicodeTables, texto: Option<string>)
    requires Coherent(u)
    ensures 'ñ' !in NormalizarTexto(u, texto)
  {
    if texto.Some? && texto.value != [] {
      var lowered := FlatMap(u.lower, texto.value);
      DropMarksMembers(u, FlatMap(u.decompose, lowered));
      if 'ñ' in FlatMap(u.decompose, lowered) {
        FlatMapMembers(u.decompose, lowered, 'ñ');
        assert false;
      }
    }
  }

  /** w occurs in t starting at position i. */
  predicate OccursAt(t: string, w: string, i: nat)
  {
    i + |w| <= |t| && t[i..i + |w|] == w
  }

  /** Python's `w in t` on strings. */
  function Contains(t: string, w: string): bool
    decreases |t|
  {
    if |w| > |t| then false else t[..|w|] == w || Contains(t[1..], w)
  }

  /** The substring test finds an occurrence exactly when there is one. */
  lemma {:induction false} ContainsIff(t: string, w: string)
    ensures Contains(t, w) <==> exists i: nat :: OccursAt(t, w, i)
    decreases |t|
  {
    if |w| <= |t| {
      if t[..|w|] == w {
        assert OccursAt(t, w, 0);
      } else {
        ContainsIff(t[1..], w);
        if Contains(t[1..], w) {
          var i: nat :| OccursAt(t[1..], w, i);
          assert t[1..][i..i + |w|] == t[i + 1..i + 1 + |w|];
          assert OccursAt(t, w, i + 1);
        }
        if exists i: nat :: OccursAt(t, w, i) {
          var i: nat :| OccursAt(t, w, i);
          assert i != 0;
          assert t[1..][i - 1..i - 1 + |w|] == t[i..i + |w|];
          assert OccursAt(t[1..], w, i - 1);
        }
      }
    } else {
      forall i: nat ensures !OccursAt(t, w, i) {
      }
    }
  }

  /** A word holding a character the text lacks never occurs in it. */
  lemma MissingCharNeverMatches(t: string, w: string, c: char)
    requires c in w && c !in t
    ensures !Contains(t, w)
  {
    ContainsIff(t, w);
    forall i: nat ensures !OccursAt(t, w, i) {
      if i + |w| <= |t| {
        var k :| 0 <= k < |w| && w[k] == c;
        assert t[i..i + |w|][k] == t[i + k];
        assert t[i + k] in t;
      }
    }
  }

  /** Some keyword of `ws` occurs in `t`. */
  function AnyKeyword(t: string, ws: seq<string>): (b: bool)
    ensures b <==> exists k :: 0 <= k < |ws| && Contains(t, ws[k])
  {
    if ws == [] then false
    else Contains(t, ws[0]) || AnyKeyword(t, ws[1..])
  }

  /** The fallback area. */
  const Otras: string := "Otras Áreas"

  /** mapeo_areas, in its declaration order (which the first match follows). */
  const MapeoAreas: seq<(string, seq<string>)> := [
    ("Robótica", ["robotica", "robot", "meca"]),
    ("Astronomía", ["astronomia", "espacio", "astros", "planeta"]),
    ("Ciencia para la Producción", ["produccion", "agro", "industria", "fabrica"]),
    ("Ciencia para la Computación", ["computacion", "programacion", "software", "informatica"]),
    ("Biología y Salud", ["biologia", "salud", "medicina", "celulas"]),
    ("Química", ["quimica", "laboratorio", "molecula"]),
    ("Física", ["fisica", "energia", "cuantica"]),
    ("Matemáticas", ["matematica", "calculo", "algebra"]),
    ("Ciencias Sociales", ["sociales", "comunidad", "humanidades"]),
    ("Ecología y Ambiente", ["ambiente", "ecologia", "clima", "reciclaje"]),
    ("Electrónica", ["electronica", "circuitos", "sensores"]),
    ("Telecomunicaciones", ["telecomunicaciones", "redes", "satelite"]),
    ("Biotecnología", ["biotecnologia", "genetica", "adn"]),
    ("Innovación y Emprendimiento", ["innovacion", "emprendimiento", "startup"]),
    ("Ingeniería", ["ingenieria", "diseño", "prototipo"])
  ]

  /** The areas are 15, distinct, and none is the fallback. */
  lemma MapeoAreasNames()
    ensures |MapeoAreas| == 15
    ensures forall i, j :: 0 <= i < j < |MapeoAreas| ==> MapeoAreas[i].0 != MapeoAreas[j].0
    ensures forall i :: 0 <= i < |MapeoAreas| ==> MapeoAreas[i].0 != Otras
  {
  }

  /** The position of the first area with a matching keyword, or the number
      of areas when none matches: the nested loop with an early return. */
  function PrimerArea(t: string, areas: seq<(string, seq<string>)>): (k: nat)
    ensures k <= |areas|
    ensures forall j :: 0 <= j < k ==> !AnyKeyword(t, areas[j].1)
    ensures k < |areas| ==> AnyKeyword(t, areas[k].1)
  {
    if areas == [] then 0
    else if AnyKeyword(t, areas[0].1) then 0
    else 1 + PrimerArea(t, areas[1..])
  }

  /** asignar_area on an already normalised text. */
  function AsignarArea(t: string): (area: string)
    ensures area == Otras <==> forall j :: 0 <= j < |MapeoAreas| ==> !AnyKeyword(t, MapeoAreas[j].1)
    ensures area != Otras ==>
              exists k :: 0 <= k < |MapeoAreas| && MapeoAreas[k].0 == area && AnyKeyword(t, MapeoAreas[k].1) &&
                          forall j :: 0 <= j < k ==> !AnyKeyword(t, MapeoAreas[j].1)
  {
    MapeoAreasNames();
    var k := PrimerArea(t, MapeoAreas);
    if k < |MapeoAreas| then MapeoAreas[k].0 else Otras
  }

  /** The result is always one of the fifteen areas or the fallback. */
  predicate AreaValida(area: string)
  {
    area == Otras || exists k :: 0 <= k < |MapeoAreas| && MapeoAreas[k].0 == area
  }

  lemma AsignarAreaValida(t: string)
    ensures AreaValida(AsignarArea(t))
  {
  }

  /** "robotica" decides the area even when a later area's keyword, such as
      "programacion", also occurs. */
  lemma RoboticaGana(t: string)
    requires Contains(t, "robotica")
    ensures AsignarArea(t) == "Robótica"
  {
    assert AnyKeyword(t, MapeoAreas[0].1) by {
      assert Contains(t, MapeoAreas[0].1[0]);
    }
  }

  /** The keyword "diseño" can never match a normalised text. */
  lemma DisenoNuncaCoincide(u: UnicodeTables, texto: Option<string>)
    requires Coherent(u)
    ensures !Contains(NormalizarTexto(u, texto), "diseño")
  {
    NoEnie(u, texto);
    MissingCharNeverMatches(NormalizarTexto(u, texto), "diseño", 'ñ');
  }

  /** A normalised text is classified as "Ingeniería" only through
      "ingenieria" or "prototipo", and only when no earlier area matched. */
  lemma IngenieriaSoloPor(u: UnicodeTables, texto: Option<string>)
    requires Coherent(u)
    requires AsignarArea(NormalizarTexto(u, texto)) == "Ingeniería"
    ensures Contains(NormalizarTexto(u, texto), "ingenieria") || Contains(NormalizarTexto(u, texto), "prototipo")
    ensures forall j :: 0 <= j < 14 ==> !AnyKeyword(NormalizarTexto(u, texto), MapeoAreas[j].1)
  {
    DisenoNuncaCoincide(u, texto);
    IngenieriaSinDiseno(NormalizarTexto(u, texto));
  }

  lemma IngenieriaSinDiseno(t: string)
    requires !Contains(t, "diseño")
    requires AsignarArea(t) == "Ingeniería"
    ensures Contains(t, "ingenieria") || Contains(t, "prototipo")
    ensures forall j :: 0 <= j < 14 ==> !AnyKeyword(t, MapeoAreas[j].1)
  {
    MapeoAreasNames();
    var k := PrimerArea(t, MapeoAreas);
    assert k < |MapeoAreas| && MapeoAreas[k].0 == "Ingeniería";
    assert MapeoAreas[14].0 == "Ingeniería";
    assert k == 14;
    assert MapeoAreas[14].1 == ["ingenieria", "diseño", "prototipo"];
  }


  /** Mapping works character by character. */
  lemma {:induction false} FlatMapAppend(f: char -> string, a: string, b: string)
    ensures FlatMap(f, a + b) == FlatMap(f, a) + FlatMap(f, b)
  {
    if a == [] {
      assert a + b == b;
    } else {
      assert (a + b)[1..] == a[1..] + b;
      FlatMapAppend(f, a[1..], b);
    }
  }

  lemma {:induction false} FlatMapUnchanged(f: char -> string, s: string)
    requires forall i :: 0 <= i < |s| ==> f(s[i]) == [s[i]]
    ensures FlatMap(f, s) == s
  {
    if s != [] {
      FlatMapUnchanged(f, s[1..]);
    }
  }

  lemma {:induction false} DropMarksUnchanged(u: UnicodeTables, s: string)
    requires forall i :: 0 <= i < |s| ==> !u.isMn(s[i])
    ensures DropMarks(u, s) == s
  {
    if s != [] {
      DropMarksUnchanged(u, s[1..]);
    }
  }

  /** A text holding both "robotica" and "programacion" matches the
      Computación area too, yet is classified as Robótica, the earlier area. */
  lemma RoboticaYProgramacion(t: string)
    requires Contains(t, "robotica") && Contains(t, "programacion")
    ensures MapeoAreas[3].0 == "Ciencia para la Computación" && AnyKeyword(t, MapeoAreas[3].1)
    ensures AsignarArea(t) == "Robótica"
  {
    assert Contains(t, MapeoAreas[3].1[1]);
    RoboticaGana(t);
  }

  lemma DisenoLower()
    ensures FlatMap(Espanol.lower, "Diseño") == "diseño"
  {
    FlatMapAppend(Espanol.lower, "D", "iseño");
    FlatMapUnchanged(Espanol.lower, "iseño");
    assert "Diseño" == "D" + "iseño";
  }

  lemma DisenoDecompose()
    ensures FlatMap(Espanol.decompose, "diseño") == "disen\U{0303}o"
  {
    assert "diseño" == "dise" + "ño";
    FlatMapAppend(Espanol.decompose, "dise", "ño");
    DiseIntacto();
    EnieDescompuesta();
  }

  lemma DiseIntacto()
    ensures FlatMap(Espanol.decompose, "dise") == "dise"
  {
    FlatMapUnchanged(Espanol.decompose, "dise");
  }

  lemma EnieDescompuesta()
    ensures FlatMap(Espanol.decompose, "ño") == "n\U{0303}o"
  {
    assert "ño"[1..] == "o";
    assert FlatMap(Espanol.decompose, "o") == "o";
  }

  lemma DisenoDrop()
    ensures DropMarks(Espanol, "disen\U{0303}o") == "diseno"
  {
    DropMarksAppend(Espanol, "disen", "\U{0303}o");
    DropMarksAppend(Espanol, "\U{0303}", "o");
    DropMarksUnchanged(Espanol, "disen");
    DropMarksUnchanged(Espanol, "o");
    assert DropMarks(Espanol, "\U{0303}") == [];
    assert "disen\U{0303}o" == "disen" + "\U{0303}o";
    assert "\U{0303}o" == "\U{0303}" + "o";
  }

  /** The Spanish tables normalise "Diseño" to "diseno", which the keyword
      "diseño" does not match. */
  lemma DisenoEjemplo()
    ensures NormalizarTexto(Espanol, Some("Diseño")) == "diseno"
    ensures !Contains(NormalizarTexto(Espanol, Some("Diseño")), "diseño")
  {
    DisenoNormaliza();
    DisenoNoContiene();
  }

  lemma DisenoNormaliza()
    ensures NormalizarTexto(Espanol, Some("Diseño")) == "diseno"
  {
    DisenoLower();
    DisenoDecompose();
    DisenoDrop();
  }

  lemma DisenoNoContiene()
    ensures !Contains("diseno", "diseño")
  {
    MissingCharNeverMatches("diseno", "diseño", 'ñ');
  }

  /** normalizar_texto with the Spanish tables on a non-empty text. */
  function Normal(s: string): string
  {
    DropMarks(Espanol, FlatMap(Espanol.decompose, FlatMap(Espanol.lower, s)))
  }

  lemma NormalAppend(a: string, b: string)
    ensures Normal(a + b) == Normal(a) + Normal(b)
  {
    FlatMapAppend(Espanol.lower, a, b);
    FlatMapAppend(Espanol.decompose, FlatMap(Espanol.lower, a), FlatMap(Espanol.lower, b));
    DropMarksAppend(Espanol, FlatMap(Espanol.decompose, FlatMap(Espanol.lower, a)),
                    FlatMap(Espanol.decompose, FlatMap(Espanol.lower, b)));
  }

  /** Lower-case ASCII letters and spaces come through unchanged. */
  lemma NormalPlano(s: string)
    requires forall i :: 0 <= i < |s| ==> 'a' <= s[i] <= 'z' || s[i] == ' '
    ensures Normal(s) == s
  {
    FlatMapUnchanged(Espanol.lower, s);
    FlatMapUnchanged(Espanol.decompose, s);
    DropMarksUnchanged(Espanol, s);
  }

  lemma FlatMapUno(f: char -> string, c: char)
    ensures FlatMap(f, [c]) == f(c)
  {
    assert [c][1..] == [];
  }

  lemma DropMarksUno(u: UnicodeTables, c: char)
    ensures DropMarks(u, [c]) == if u.isMn(c) then [] else [c]
  {
    assert [c][1..] == [];
  }

  /** An ASCII capital becomes its lower-case letter. */
  lemma NormalMayuscula(c: char)
    requires 'A' <= c <= 'Z'
    ensures Normal([c]) == [(c as int + 32) as char]
  {
    var l := (c as int + 32) as char;
    FlatMapUno(Espanol.lower, c);
    FlatMapUno(Espanol.decompose, l);
    DropMarksUno(Espanol, l);
  }

  /** 'ó' loses its accent. */
  lemma NormalOAguda()
    ensures Normal("ó") == "o"
  {
    FlatMapUno(Espanol.lower, 'ó');
    FlatMapUno(Espanol.decompose, 'ó');
    DropMarksAppend(Espanol, "o", "\U{0301}");
    DropMarksUno(Espanol, 'o');
    DropMarksUno(Espanol, '\U{0301}');
    assert ['o', '\U{0301}'] == "o" + "\U{0301}";
  }

  /** A word occurs in any text that has it in the middle. */
  lemma ContainsMiddle(a: string, w: string, b: string)
    ensures Contains(a + w + b, w)
  {
    ContainsIff(a + w + b, w);
    assert (a + w + b)[|a|..|a| + |w|] == w;
    assert OccursAt(a + w + b, w, |a|);
  }

  /** The Spanish tables normalise "Robótica y Programación" to
      "robotica y programacion", which matches both Robótica and
      Computación keywords; the first area wins. */
  lemma RoboticaYProgramacionEjemplo()
    ensures NormalizarTexto(Espanol, Some("Robótica y Programación")) == "robotica y programacion"
    ensures AsignarArea(NormalizarTexto(Espanol, Some("Robótica y Programación"))) == "Robótica"
  {
    RoboticaYProgramacionNormaliza();
    RoboticaYProgramacionClasifica();
  }

  lemma RoboticaYProgramacionClasifica()
    ensures AsignarArea("robotica y programacion") == "Robótica"
  {
    assert "robotica y programacion" == "" + "robotica" + " y " + "programacion" + "";
    RoboticaAntesQueProgramacion("", " y ", "");
  }

  /** Any text with "robotica" and then "programacion" is Robótica. */
  lemma RoboticaAntesQueProgramacion(a: string, b: string, c: string)
    ensures AsignarArea(a + "robotica" + b + "programacion" + c) == "Robótica"
  {
    var w1, w2 := "robotica", "programacion";
    var t := a + w1 + b + w2 + c;
    assert t == a + w1 + (b + w2 + c);
    assert t == (a + w1 + b) + w2 + c;
    ContainsMiddle(a, w1, b + w2 + c);
    ContainsMiddle(a + w1 + b, w2, c);
    RoboticaYProgramacion(t);
  }

  lemma RoboticaYProgramacionNormaliza()
    ensures NormalizarTexto(Espanol, Some("Robótica y Programación")) == "robotica y programacion"
  {
    assert "Robótica y Programación" == "Robótica" + " y " + "Programación";
    assert "robotica y programacion" == "robotica" + " y " + "programacion";
    NormalPlano(" y ");
    NormalizarEsNormal("Robótica y Programación");
    NormalTresPartes("Robótica", " y ", "Programación");
    NormalRobotica();
    NormalProgramacion();
  }

  lemma NormalizarEsNormal(x: string)
    requires x != []
    ensures NormalizarTexto(Espanol, Some(x)) == Normal(x)
  {
  }

  lemma NormalTresPartes(a: string, b: string, c: string)
    ensures Normal(a + b + c) == Normal(a) + Normal(b) + Normal(c)
  {
    NormalAppend(a + b, c);
    NormalAppend(a, b);
  }

  /** A capitalised word with one 'ó' loses the capital and the accent. */
  lemma NormalPalabraAcentuada(cap: char, mid: string, tail: string)
    requires 'A' <= cap <= 'Z'
    requires forall i :: 0 <= i < |mid| ==> 'a' <= mid[i] <= 'z' || mid[i] == ' '
    requires forall i :: 0 <= i < |tail| ==> 'a' <= tail[i] <= 'z' || tail[i] == ' '
    ensures Normal([cap] + mid + ['ó'] + tail) == [(cap as int + 32) as char] + mid + ['o'] + tail
  {
    NormalAppend([cap] + mid + ['ó'], tail);
    NormalAppend([cap] + mid, ['ó']);
    NormalAppend([cap], mid);
    NormalMayuscula(cap);
    NormalPlano(mid);
    NormalPlano(tail);
    NormalOAguda();
  }

  /** "Robótica" normalises to "robotica". The two words of the example
      are kept in separate lemmas: with both literals unfolded in one
      context the solver's cost grows by two orders of magnitude. */
  lemma NormalRobotica()
    ensures Normal("Robótica") == "robotica"
  {
    assert "Robótica" == ['R'] + "ob" + ['ó'] + "tica";
    NormalPalabraAcentuada('R', "ob", "tica");
    assert ['r'] + "ob" + ['o'] + "tica" == "robotica";
  }

  /** "Programación" normalises to "programacion". */
  lemma NormalProgramacion()
    ensures Normal("Programación") == "programacion"
  {
    assert "Programación" == ['P'] + "rogramaci" + ['ó'] + "n";
    NormalPalabraAcentuada('P', "rogramaci", "n");
    assert ['p'] + "rogramaci" + ['o'] + "n" == "programacion";
  }

  /** How a cell reads inside an f-string: NULL comes back from the
      database as None and prints as "None"; a date prints as its year. */
  function Mostrar(c: Cell): string
  {
    match c
    case Null => "None"
    case Text(s) => s
    case Date(y) => y
  }

  /** row.get(col, ''): the cell when the table has the column, '' when it
      does not. */
  function Nivel(columnas: set<string>, r: Row, col: string): string
  {
    if col in columnas then Mostrar(Field(r, col)) else ""
  }

  /** The text a row is classified on: its SubCatg1 .. SubCatg4 values
      joined by single spaces. */
  function TextoUnido(columnas: set<string>, r: Row): string
  {
    Nivel(columnas, r, "SubCatg1") + " " + Nivel(columnas, r, "SubCatg2") + " "
    + Nivel(columnas, r, "SubCatg3") + " " + Nivel(columnas, r, "SubCatg4")
  }

  /** A table without any of the four SubCatg columns classifies every row
      on three spaces, which no keyword matches. */
  lemma SinColumnasEsOtras(columnas: set<string>, r: Row)
    requires "SubCatg1" !in columnas && "SubCatg2" !in columnas
    requires "SubCatg3" !in columnas && "SubCatg4" !in columnas
    ensures TextoUnido(columnas, r) == "   "
    ensures AsignarArea(NormalizarTexto(Espanol, Some(TextoUnido(columnas, r)))) == Otras
  {
    var e := Nivel(columnas, r, "SubCatg1");
    assert e == "" && Nivel(columnas, r, "SubCatg2") == e;
    assert Nivel(columnas, r, "SubCatg3") == e && Nivel(columnas, r, "SubCatg4") == e;
    assert TextoUnido(columnas, r) == e + " " + e + " " + e + " " + e;
    assert e + " " + e + " " + e + " " + e == "   ";
    EspaciosNormalizados();
    SoloEspaciosEsOtras("   ");
  }

  lemma EspaciosNormalizados()
    ensures NormalizarTexto(Espanol, Some("   ")) == "   "
  {
    FlatMapUnchanged(Espanol.lower, "   ");
    FlatMapUnchanged(Espanol.decompose, "   ");
    DropMarksUnchanged(Espanol, "   ");
  }

  /** No keyword starts with a space, so a text of spaces matches no area. */
  lemma SoloEspaciosEsOtras(t: string)
    requires forall i :: 0 <= i < |t| ==> t[i] == ' '
    ensures AsignarArea(t) == Otras
  {
    MapeoAreasClaves();
    forall j | 0 <= j < |MapeoAreas| ensures !AnyKeyword(t, MapeoAreas[j].1) {
      NingunaPalabra(t, MapeoAreas[j].1);
    }
  }

  /** Every keyword is non-empty and starts with a lower-case letter. */
  lemma MapeoAreasClaves()
    ensures forall j, k :: 0 <= j < |MapeoAreas| && 0 <= k < |MapeoAreas[j].1| ==>
              |MapeoAreas[j].1[k]| > 0 && 'a' <= MapeoAreas[j].1[k][0] <= 'z'
  {
  }

  lemma NingunaPalabra(t: string, ws: seq<string>)
    requires forall i :: 0 <= i < |t| ==> t[i] == ' '
    requires forall k :: 0 <= k < |ws| ==> |ws[k]| > 0 && 'a' <= ws[k][0] <= 'z'
    ensures !AnyKeyword(t, ws)
  {
    forall k | 0 <= k < |ws| ensures !Contains(t, ws[k]) {
      MissingCharNeverMatches(t, ws[k], ws[k][0]);
    }
  }

  /** The Area_Agrupada column: a row's area. */
  function AreaDe(u: UnicodeTables, columnas: set<string>): Row -> string
  {
    r => AsignarArea(NormalizarTexto(u, Some(TextoUnido(columnas, r))))
  }

  /** groupby(area).size(), sorted by count descending, first 15 rows. */
  function ResumenAreas(u: UnicodeTables, columnas: set<string>, rows: seq<Row>): (res: seq<(string, nat)>)
    ensures |res| <= 15
    ensures var n := |Grouping.Summary(rows, AreaDe(u, columnas))|;
            |res| == if n <= 15 then n else 15
  {
    var s := Grouping.Sizes(Grouping.Summary(rows, AreaDe(u, columnas)));
    if |s| <= 15 then s else s[..15]
  }

  /** Each entry is a valid area with a positive count equal to the number
      of rows assigned to it; the entries come largest first, one per area. */
  lemma ResumenAreasExacto(u: UnicodeTables, columnas: set<string>, rows: seq<Row>)
    ensures var res := ResumenAreas(u, columnas, rows);
            forall i :: 0 <= i < |res| ==>
              AreaValida(res[i].0) && res[i].1 > 0 &&
              res[i].1 == |Grouping.Members(rows, AreaDe(u, columnas), res[i].0)|
    ensures var res := ResumenAreas(u, columnas, rows);
            forall i, j :: 0 <= i < j < |res| ==> res[i].1 >= res[j].1 && res[i].0 != res[j].0
  {
    var key := AreaDe(u, columnas);
    var gs := Grouping.Summary(rows, key);
    var res := ResumenAreas(u, columnas, rows);
    ResumenAreasPrefijo(u, columnas, rows);
    forall i | 0 <= i < |res|
      ensures AreaValida(res[i].0) && res[i].1 > 0 && res[i].1 == |Grouping.Members(rows, key, res[i].0)|
    {
      assert gs[i].rows == Grouping.Members(rows, key, gs[i].key) && gs[i].rows != [];
      var x := gs[i].rows[0];
      assert x in Grouping.Members(rows, key, gs[i].key);
      AsignarAreaValida(NormalizarTexto(u, Some(TextoUnido(columnas, x))));
    }
    forall i, j | 0 <= i < j < |res| ensures res[i].1 >= res[j].1 && res[i].0 != res[j].0 {
      assert |gs[i].rows| >= |gs[j].rows| && gs[i].key != gs[j].key;
    }
  }

  /** The summary's entries are the first groups of the sorted grouping. */
  lemma ResumenAreasPrefijo(u: UnicodeTables, columnas: set<string>, rows: seq<Row>)
    ensures var gs := Grouping.Summary(rows, AreaDe(u, columnas));
            var res := ResumenAreas(u, columnas, rows);
            && |res| <= |gs|
            && forall i :: 0 <= i < |res| ==> res[i] == (gs[i].key, |gs[i].rows|)
  {
  }

  /** The 15 kept are the largest: an area left out has no more rows than
      any area kept. */
  lemma ResumenAreasTop(u: UnicodeTables, columnas: set<string>, rows: seq<Row>, area: string)
    requires forall i :: 0 <= i < |ResumenAreas(u, columnas, rows)| ==> ResumenAreas(u, columnas, rows)[i].0 != area
    ensures forall i :: 0 <= i < |ResumenAreas(u, columnas, rows)| ==>
              |Grouping.Members(rows, AreaDe(u, columnas), area)| <= ResumenAreas(u, columnas, rows)[i].1
  {
    var key := AreaDe(u, columnas);
    var gs := Grouping.Summary(rows, key);
    var res := ResumenAreas(u, columnas, rows);
    assert |res| == if |gs| <= 15 then |gs| else 15;
    assert forall i :: 0 <= i < |res| ==> res[i].0 == gs[i].key && res[i].1 == |gs[i].rows|;
    Grouping.SummaryTop(rows, key, 15, area);
  }

  /** With at most 15 areas in use nothing is cut: every row's area is
      listed. */
  lemma ResumenAreasCompleto(u: UnicodeTables, columnas: set<string>, rows: seq<Row>, r: Row)
    requires |Grouping.Summary(rows, AreaDe(u, columnas))| <= 15
    requires r in rows
    ensures exists i :: 0 <= i < |ResumenAreas(u, columnas, rows)| &&
                        ResumenAreas(u, columnas, rows)[i].0 == AreaDe(u, columnas)(r)
  {
    var key := AreaDe(u, columnas);
    var gs := Grouping.Summary(rows, key);
    ResumenAreasPrefijo(u, columnas, rows);
    assert Grouping.HasKey(gs, key(r));
    var i :| 0 <= i < |gs| && gs[i].key == key(r);
    assert ResumenAreas(u, columnas, rows)[i].0 == key(r);
  }

  /** Before truncation the counts add up to the number of rows, and there
      are at most 16 of them (15 areas and the fallback), so the cut keeps
      all but the smallest one at most. */
  lemma ResumenAreasTotal(u: UnicodeTables, columnas: set<string>, rows: seq<Row>)
    ensures Grouping.Total(Grouping.Summary(rows, AreaDe(u, columnas))) == |rows|
    ensures |Grouping.Summary(rows, AreaDe(u, columnas))| <= 16
  {
    var gs := Grouping.Summary(rows, AreaDe(u, columnas));
    ClavesValidas(u, columnas, rows);
    AlMenosDieciseis(gs);
  }

  /** Every group of the summary is named by a valid area. */
  lemma ClavesValidas(u: UnicodeTables, columnas: set<string>, rows: seq<Row>)
    ensures var gs := Grouping.Summary(rows, AreaDe(u, columnas));
            forall i :: 0 <= i < |gs| ==> AreaValida(gs[i].key)
  {
    var gs := Grouping.Summary(rows, AreaDe(u, columnas));
    forall i | 0 <= i < |gs| ensures AreaValida(gs[i].key) {
      var x := gs[i].rows[0];
      assert x in Grouping.Members(rows, AreaDe(u, columnas), gs[i].key);
      AsignarAreaValida(NormalizarTexto(u, Some(TextoUnido(columnas, x))));
    }
  }

  /** Groups with distinct, valid area names are at most 16. */
  lemma AlMenosDieciseis(gs: seq<Grouping.Group<string, Row>>)
    requires Grouping.DistinctKeys(gs)
    requires forall i :: 0 <= i < |gs| ==> AreaValida(gs[i].key)
    ensures |gs| <= 16
  {
    var names := set i | 0 <= i < |gs| :: gs[i].key;
    var valid := {Otras} + set k | 0 <= k < |MapeoAreas| :: MapeoAreas[k].0;
    assert names <= valid by {
      forall v | v in names ensures v in valid {
        var i :| 0 <= i < |gs| && gs[i].key == v;
        assert AreaValida(v);
      }
    }
    DistinctKeysCard(gs);
    SubsetCardinality(names, valid);
    SeqImageCard(MapeoAreas);
  }

  lemma {:induction false} DistinctKeysCard(gs: seq<Grouping.Group<string, Row>>)
    requires Grouping.DistinctKeys(gs)
    ensures |set i | 0 <= i < |gs| :: gs[i].key| == |gs|
  {
    if gs != [] {
      var rest := gs[1..];
      DistinctKeysCard(rest);
      var s := set i | 0 <= i < |gs| :: gs[i].key;
      var r := set i | 0 <= i < |rest| :: rest[i].key;
      assert s == {gs[0].key} + r by {
        forall v | v in s ensures v in {gs[0].key} + r {
          var i :| 0 <= i < |gs| && gs[i].key == v;
          if i > 0 { assert rest[i - 1].key == v; }
        }
      }
      assert gs[0].key !in r;
    }
  }

  lemma {:induction false} SeqImageCard(areas: seq<(string, seq<string>)>)
    ensures |{Otras} + set k | 0 <= k < |areas| :: areas[k].0| <= |areas| + 1
  {
    if areas != [] {
      var rest := areas[1..];
      SeqImageCard(rest);
      var s := set k | 0 <= k < |areas| :: areas[k].0;
      var r := set k | 0 <= k < |rest| :: rest[k].0;
      assert s == {areas[0].0} + r by {
        forall v | v in s ensures v in {areas[0].0} + r {
          var k :| 0 <= k < |areas| && areas[k].0 == v;
          if k > 0 { assert rest[k - 1].0 == v; }
        }
      }
      assert {Otras} + s == {areas[0].0} + ({Otras} + r);
    }
  }
}
