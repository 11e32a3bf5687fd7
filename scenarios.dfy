/**
 * Client runs of the use cases from an empty store, showing what the use
 * cases' contracts fix about whole sequences of calls.
 */
module Scenarios {
  import opened Domain
  import opened Repository
  import opened BookService
  import opened Usecase

  /** A created row is found under its new key with the requested name. */
  method CreateThenGet() {
    var repo := new CategoryRepository();
    var client := new BookClient([true], repo);
    var uc := new CategoryUsecase(repo, client);
    var created := uc.CreateCategory(CreateCategoryRequest("Fiction"));
    assert created == Success(Category(1, "Fiction", 0, 0, None));
    assert client.seen == [map[1 := created.value]];
    var found := uc.GetCategoryByID(1);
    assert found == created;
  }

  /** A rejected mirror leaves no row behind, though key 1 is used up. */
  method RemoteFailureLeavesNoRow() {
    var repo := new CategoryRepository();
    var client := new BookClient([false], repo);
    var uc := new CategoryUsecase(repo, client);
    var created := uc.CreateCategory(CreateCategoryRequest("Fiction"));
    assert created == Failure(RemoteFailed);
    assert repo.rows == map[] && repo.nextId == 2;
  }

  /**
   * The name of a soft-deleted row stays taken; deleting it again is no error
   * and still calls the book service.
   */
  method DeletedNameStaysTakenRun() {
    var repo := new CategoryRepository();
    var client := new BookClient([true, true, true], repo);
    var uc := new CategoryUsecase(repo, client);
    var created := uc.CreateCategory(CreateCategoryRequest("Fiction"));
    var err := uc.DeleteCategory(1);
    assert err == None;
    var again := uc.DeleteCategory(1);
    assert again == None && |client.calls| == 3;
    assert repo.rows[1].name == "Fiction";
    var recreated := uc.CreateCategory(CreateCategoryRequest("Fiction"));
    assert recreated == Failure(UniqueViolation);
  }

  /** Of two successful creates, the second row carries the later creation time, and both are mirrored. */
  method LaterCreateIsNewer() {
    var repo := new CategoryRepository();
    var client := new BookClient([true, true], repo);
    var uc := new CategoryUsecase(repo, client);
    var a := uc.CreateCategory(CreateCategoryRequest("Fiction"));
    var b := uc.CreateCategory(CreateCategoryRequest("Poetry"));
    assert a.Success? && b.Success?;
    assert b.value.createdAt > a.value.createdAt;
    assert client.mirror == map[1 := "Fiction", 2 := "Poetry"];
  }
}
