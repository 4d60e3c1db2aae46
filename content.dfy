/** The three content variants of a cell (Cell::Impl in cell.h: EmptyImpl, TextImpl, FormulaImpl)
    and the classification Cell::Set applies to its input text. */
module Content {
  import opened Common
  import opened Formula

  /** A cell's content. Text keeps the text exactly as entered; a formula keeps its parsed
      expression and the cache of its last evaluation. */
  datatype Content =
    | Empty
    | Text(text: string)
    | FormulaContent(ast: Ast, cache: Option<Value>)

  /** The escape marker that forces text to stay text. */
  const EscapeSign: char := '\''

  /** The value of TextImpl: the text with a leading escape marker stripped. */
  function TextValue(text: string): (v: string)
    ensures |text| > 0 && text[0] == EscapeSign ==> [EscapeSign] + v == text
    ensures !(|text| > 0 && text[0] == EscapeSign) ==> v == text
  {
    if |text| > 0 && text[0] == EscapeSign then text[1..] else text
  }

  /** Impl::GetText: the stored text; a formula re-prints its expression after '='. */
  function GetText(c: Content): (t: string)
    ensures c.Empty? ==> t == ""
    ensures c.Text? ==> t == c.text
    ensures c.FormulaContent? ==> |t| > 0 && t[0] == '=' && t[1..] == c.ast.expression
  {
    match c
    case Empty => ""
    case Text(t) => t
    case FormulaContent(ast, _) => ['='] + ast.expression
  }

  /** The value of Empty and Text content (EmptyImpl::GetValue, TextImpl::GetValue). */
  function LiteralValue(c: Content): (v: Value)
    requires !c.FormulaContent?
    ensures v.Str?
    ensures c.Empty? ==> v == Str("") && GetText(c) == ""
    ensures c.Text? ==> v.text == TextValue(GetText(c))
  {
    match c
    case Empty => Str("")
    case Text(t) => Str(TextValue(t))
  }

  /** Impl::GetReferencedCells: nothing for Empty and Text, the formula's valid positions otherwise. */
  function Refs(c: Content): (r: seq<Position>)
    ensures !c.FormulaContent? ==> r == []
    ensures forall p :: p in r ==> p.IsValid()
    ensures c.FormulaContent? ==> forall p :: p in r <==> p in c.ast.cells && p.IsValid()
  {
    match c
    case FormulaContent(ast, _) => GetReferencedCells(ast)
    case _ => []
  }

  /** Impl::HasCache: no variant overrides it, so every content reports a cache. */
  function HasCache(c: Content): (r: bool)
    ensures r
  {
    true
  }

  /** The cache-clearing hook, as the design intends it: a formula forgets its cached value and
      nothing else changes (Impl::InvalidateCache itself is empty, see Findings). */
  function InvalidateCache(c: Content): (r: Content)
    ensures r.FormulaContent? ==> r.cache.None?
    ensures GetText(r) == GetText(c) && Refs(r) == Refs(c)
    ensures r.Empty? == c.Empty? && r.Text? == c.Text? && r.FormulaContent? == c.FormulaContent?
    ensures !c.FormulaContent? ==> r == c
  {
    match c
    case FormulaContent(ast, _) => FormulaContent(ast, None)
    case _ => c
  }

  /** Clearing twice is clearing once. */
  lemma InvalidateCacheIdempotent(c: Content)
    ensures InvalidateCache(InvalidateCache(c)) == InvalidateCache(c)
  {
  }

  /** Cell::Set's classification of its input text (cell.cpp): '=' followed by at least one
      character is a formula, parsed from the text after '='; the empty text is Empty; everything
      else, the lone "=" included, is Text. */
  function Classify(ev: Evaluator, text: string): (r: Result<Content, FormulaException>)
    ensures r.Failure? <==> |text| > 1 && text[0] == '=' && ev.parseAst(text[1..]).None?
    ensures r.Success? ==> (r.value.Empty? <==> text == "")
    ensures r.Success? ==> (r.value.FormulaContent? <==> |text| > 1 && text[0] == '=')
    // literal text is kept verbatim, so GetText gives back exactly the input
    ensures r.Success? && !r.value.FormulaContent? ==> GetText(r.value) == text
    // a formula starts with an empty cache and re-prints as '=' plus the canonical expression
    ensures r.Success? && r.value.FormulaContent? ==>
      r.value.cache.None? && ev.parseAst(text[1..]) == Some(r.value.ast)
      && GetText(r.value) == ['='] + r.value.ast.expression
  {
    if |text| > 1 && text[0] == '=' then
      match ParseFormula(ev, text[1..])
      case Failure(e) => Failure(e)
      case Success(ast) => Success(FormulaContent(ast, None))
    else if |text| == 0 then Success(Empty)
    else Success(Text(text))
  }

  /** An escaped entry such as "'5" reads as the text after the marker and re-displays as entered. */
  lemma EscapedTextRoundTrip(ev: Evaluator, text: string)
    requires |text| > 1 && text[0] == EscapeSign
    ensures Classify(ev, text) == Success(Text(text))
    ensures LiteralValue(Text(text)) == Str(text[1..]) && GetText(Text(text)) == text
  {
  }
}
