/** The in-memory portfolio table of app/routers/portfolio.py: the
    module-global `portfolios` list and `portfolio_id_counter`, as a class
    whose methods are the routes. The clock readings `datetime.now()` makes
    are parameters; `initial_balance` is stored and returned, never
    computed with. */
module PortfolioTable {
  import opened Wrappers
  import opened Tables
  import opened ResponseHelpers
  import Timestamps

  datatype PortfolioCreate = PortfolioCreate(name: string, description: Option<string>, initialBalance: real)

  datatype Portfolio = Portfolio(id: int, name: string, description: Option<string>, initialBalance: real,
                                 createdAt: Timestamps.DateTime, updatedAt: Timestamps.DateTime)

  function PortfolioId(p: Portfolio): int
  {
    p.id
  }

  const NotFound := HttpException(HTTP_404_NOT_FOUND, "Portfolio not found")

  /** get_portfolio on a given list: the first portfolio with the id, or
      404 when there is none. */
  function Lookup(portfolios: seq<Portfolio>, id: int): (r: Result<Portfolio, HttpException>)
    ensures r.Ok? ==> r.value in portfolios && r.value.id == id
    ensures r.Err? <==> forall k :: 0 <= k < |portfolios| ==> portfolios[k].id != id
    ensures r.Err? ==> r.error == NotFound
  {
    match FirstIndex(portfolios, PortfolioId, id)
    case None => Err(NotFound)
    case Some(k) => Ok(portfolios[k])
  }

  /** A portfolio made from the request, with the given id and times. */
  function Build(id: int, input: PortfolioCreate, createdAt: Timestamps.DateTime,
                 updatedAt: Timestamps.DateTime): Portfolio
  {
    Portfolio(id, input.name, input.description, input.initialBalance, createdAt, updatedAt)
  }

  class PortfolioStore {
    var portfolios: seq<Portfolio>
    var idCounter: int
    /** Every id the table has ever handed out. */
    ghost var issued: set<int>

    /** Ids increase along the list, every listed id was issued, and every
        issued id is below the counter. */
    ghost predicate Valid()
      reads this
    {
      && Increasing(portfolios, PortfolioId)
      && (forall k :: 0 <= k < |portfolios| ==> portfolios[k].id in issued)
      && (forall n :: n in issued ==> n < idCounter)
    }

    /** The module's start: no portfolios, counter 1. */
    constructor()
      ensures Valid() && portfolios == [] && idCounter == 1 && issued == {}
    {
      portfolios := [];
      idCounter := 1;
      issued := {};
    }

    /** get_portfolios: the whole list in insertion order. */
    method GetPortfolios() returns (r: seq<Portfolio>)
      ensures r == portfolios
    {
      r := portfolios;
    }

    /** get_portfolio: the first portfolio with the id, or 404. */
    method GetPortfolio(id: int) returns (r: Result<Portfolio, HttpException>)
      ensures r == Lookup(portfolios, id)
    {
      var k := Scan(portfolios, PortfolioId, id);
      if k.None? {
        return Err(NotFound);
      }
      r := Ok(portfolios[k.value]);
    }

    /** create_portfolio: the new portfolio takes the counter as its id, goes
        at the end, and the counter moves on by one; an id is never handed
        out twice. */
    method CreatePortfolio(input: PortfolioCreate, createdAt: Timestamps.DateTime,
                           updatedAt: Timestamps.DateTime) returns (r: Portfolio)
      requires Valid()
      modifies this
      ensures Valid()
      ensures r == Build(old(idCounter), input, createdAt, updatedAt)
      ensures portfolios == old(portfolios) + [r]
      ensures idCounter == old(idCounter) + 1
      ensures r.id !in old(issued) && issued == old(issued) + {r.id}
      ensures Lookup(portfolios, r.id) == Ok(r)
      ensures forall id :: id != r.id ==> Lookup(portfolios, id) == Lookup(old(portfolios), id)
    {
      r := Build(idCounter, input, createdAt, updatedAt);
      Append(portfolios, PortfolioId, r);
      portfolios := portfolios + [r];
      issued := issued + {idCounter};
      idCounter := idCounter + 1;
    }

    /** update_portfolio: 404 and no change when the id is absent; otherwise
        the record at the same place takes the request's fields, keeping its
        id and creation time, and nothing else changes. */
    method UpdatePortfolio(id: int, input: PortfolioCreate, updatedAt: Timestamps.DateTime)
      returns (r: Result<Portfolio, HttpException>)
      requires Valid()
      modifies this
      ensures Valid()
      ensures idCounter == old(idCounter) && issued == old(issued)
      ensures r.Err? <==> old(Lookup(portfolios, id)).Err?
      ensures r.Err? ==> r.error == NotFound && portfolios == old(portfolios)
      ensures r.Ok? ==> var k := FirstIndex(old(portfolios), PortfolioId, id).value;
                        && r.value == Build(id, input, old(portfolios)[k].createdAt, updatedAt)
                        && portfolios == old(portfolios)[k := r.value]
      ensures r.Ok? ==> Lookup(portfolios, id) == Ok(r.value)
      ensures forall other :: other != id ==> Lookup(portfolios, other) == Lookup(old(portfolios), other)
    {
      var k := Scan(portfolios, PortfolioId, id);
      if k.None? {
        return Err(NotFound);
      }
      var updated := Build(id, input, portfolios[k.value].createdAt, updatedAt);
      Replace(portfolios, PortfolioId, k.value, updated);
      portfolios := portfolios[k.value := updated];
      r := Ok(updated);
    }

    /** delete_portfolio: 404 and no change when the id is absent; otherwise
        exactly that record is popped, the others keep their order, and a
        later get of the id answers 404. */
    method DeletePortfolio(id: int) returns (r: Result<(), HttpException>)
      requires Valid()
      modifies this
      ensures Valid()
      ensures idCounter == old(idCounter) && issued == old(issued)
      ensures r.Err? <==> old(Lookup(portfolios, id)).Err?
      ensures r.Err? ==> r.error == NotFound && portfolios == old(portfolios)
      ensures r.Ok? ==> portfolios == RemoveAt(old(portfolios), FirstIndex(old(portfolios), PortfolioId, id).value)
      ensures Lookup(portfolios, id) == Err(NotFound)
      ensures forall other :: other != id ==> Lookup(portfolios, other).Ok? == Lookup(old(portfolios), other).Ok?
    {
      var k := Scan(portfolios, PortfolioId, id);
      if k.None? {
        return Err(NotFound);
      }
      RemoveIncreasing(portfolios, PortfolioId, k.value);
      RemoveNotFound(portfolios, PortfolioId, k.value);
      forall other | other != id
        ensures FirstIndex(RemoveAt(portfolios, k.value), PortfolioId, other).Some?
                == FirstIndex(portfolios, PortfolioId, other).Some?
      {
        RemoveKeepsOthers(portfolios, PortfolioId, k.value, other);
      }
      portfolios := RemoveAt(portfolios, k.value);
      r := Ok(());
    }
  }
}
