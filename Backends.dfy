/**
 * The two implementations of the repository interface side by side, on the same
 * table: where their observable results coincide and where they part ways.
 */
module Backends {
  import opened Primitives
  import Text
  import opened Technicians
  import opened Store
  import opened Ordering
  import EfCore
  import Dapper

  /**
   * Both listings show the same technicians: as many rows, and the Dapper rows are
   * exactly the EF Core rows with the unselected columns reset. Only the order
   * differs (DisplayOrder ascending against key descending).
   */
  lemma ListingsAgree(ef: EfCore.TechnicianRepository, dp: Dapper.TechnicianRepositoryDapper)
    requires ef.db == dp.db && dp.Valid()
    ensures |dp.GetAll()| == |ef.GetAll()|
    ensures forall t :: t in dp.GetAll() <==> exists u :: u in ef.GetAll() && t == Dapper.Projected(u)
    ensures forall u :: u in ef.GetAll() ==> Dapper.Projected(u) in dp.GetAll()
  {
    var live := Live(ef.db.rows);
    assert |ef.GetAll()| == |live| by {
      assert |multiset(ef.GetAll())| == |multiset(live)|;
    }
    forall u ensures u in ef.GetAll() <==> u in live {
      assert u in ef.GetAll() <==> u in multiset(ef.GetAll());
    }
  }

  /**
   * On a live row, when the caller's object carries the stored values of every
   * column but Active and Name, the EF Core update (which writes every column) and
   * the Dapper update (which writes Active and Name) produce the same row, and
   * both find the same row.
   */
  lemma UpdatesAgreeOnLiveRows(rows: seq<Technician>, model: Technician)
    requires IdsIncreasing(rows)
    requires FindLive(rows, model.id).Some?
    requires var old_ := rows[FindLive(rows, model.id).value];
             model == old_.(active := model.active, name := model.name)
    ensures FindById(rows, model.id) == FindLive(rows, model.id)
    ensures var k := FindLive(rows, model.id).value;
            rows[k := model] == rows[k := rows[k].(active := model.active, name := model.name)]
  {
    LookupByKeyAgrees(rows, model.id);
  }

  /**
   * The implementations disagree on a deleted row: the Dapper update finds no live
   * row (it returns false and changes nothing), while the EF Core update finds the
   * row by key and, given `IsDeleted = false`, brings it back into every listing.
   */
  lemma UpdateOfDeletedRowDiverges(rows: seq<Technician>, model: Technician)
    requires IdsIncreasing(rows)
    requires FindById(rows, model.id).Some? && rows[FindById(rows, model.id).value].isDeleted
    requires !model.isDeleted
    ensures FindLive(rows, model.id).None?
    ensures var k := FindById(rows, model.id).value;
            FindLive(rows[k := model], model.id) == Some(k) && model in Live(rows[k := model])
  {
    LookupByKeyAgrees(rows, model.id);
    var k := FindById(rows, model.id).value;
    var r := rows[k := model];
    assert IdsIncreasing(r);
    LookupByKeyAgrees(r, model.id);
    FindByIdAt(r, k);
  }

  /**
   * The searches part ways on a query of white space only: EF Core filters unless
   * the query is null or empty, so it keeps only names containing those blanks,
   * while Dapper skips the filter for any blank query and keeps every listed row.
   */
  lemma BlankQueryDiverges(rows: seq<Technician>, q: string)
    requires q != "" && Text.IsBlank(q)
    ensures Dapper.Filtered(Dapper.LiveByIdDesc(rows), q) == Dapper.LiveByIdDesc(rows)
    ensures forall t :: t in EfCore.SearchMatches(rows, q) <==> t in rows && !t.isDeleted && NameMatches(t, q)
  {
    EfCore.SearchMatchesMembers(rows, q);
  }

  /**
   * Both repositories answer a lookup by key alike: the Dapper result is the EF Core
   * result with the unselected columns reset, and both give `new Technician()` for
   * a missing or deleted row.
   */
  lemma LookupsAgree(ef: EfCore.TechnicianRepository, dp: Dapper.TechnicianRepositoryDapper, id: int)
    requires ef.db == dp.db && dp.Valid()
    ensures dp.GetById(id) == Dapper.Projected(ef.GetById(id))
    ensures FindLive(ef.db.rows, id).None? ==> ef.GetById(id) == dp.GetById(id) == Default()
  {
    match FindLive(ef.db.rows, id)
    case None =>
    case Some(k) =>
      assert ef.GetById(id) == ef.db.rows[k];
  }
}
